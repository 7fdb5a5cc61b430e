/** `transform` and `fix_repeating_arguments`.

    `transform` expands a list of patterns into an alternation of groups: it
    repeatedly takes the first branch out of a group and replaces the group,
    for an Either by one group per alternative, for a OneOrMore by the group
    with the children twice over, and for any other branch by the group with
    the children spliced in (in front of the remaining elements). The groups
    that hold no branch any more are the result.

    `fix_repeating_arguments` then looks at each group: every leaf that occurs
    more than once in one group gets a value that counts or collects, a
    Command or a flag Option the count 0, an Argument or an Option taking an
    argument a list (its default split at whitespace, or the empty list).
 */
module Expansion {
  import opened Errors
  import opened DocoptUtil
  import opened DocoptValue
  import opened Patterns

  // ---------------------------------------------------------------------------
  // Termination measures

  /** A weight that every expansion step makes smaller: a OneOrMore counts its
      children twice because the step writes them twice. */
  function Weight(p: Pattern): (w: nat)
    decreases p, 1
    ensures w >= 1
  {
    if p.IsLeaf() then 1
    else if p.OneOrMore? then 1 + 2 * WeightAll(p.children)
    else 1 + WeightAll(p.children)
  }

  function WeightAll(ps: seq<Pattern>): nat
    decreases ps, 0
  {
    if ps == [] then 0 else Weight(ps[0]) + WeightAll(ps[1..])
  }

  lemma {:induction false} WeightAllAppend(a: seq<Pattern>, b: seq<Pattern>)
    ensures WeightAll(a + b) == WeightAll(a) + WeightAll(b)
  {
    if a == [] {
      assert a + b == b;
    } else {
      assert (a + b)[1..] == a[1..] + b;
      WeightAllAppend(a[1..], b);
    }
  }

  lemma {:induction false} WeightOfElement(ps: seq<Pattern>, k: nat)
    requires k < |ps|
    ensures Weight(ps[k]) <= WeightAll(ps)
  {
    if k > 0 {
      WeightOfElement(ps[1..], k - 1);
    }
  }

  /** The largest weight among some groups (0 for none). */
  function MaxWeight(gs: seq<seq<Pattern>>): (m: nat)
    ensures forall k :: 0 <= k < |gs| ==> WeightAll(gs[k]) <= m
    ensures gs != [] ==> MaxWeight(gs[1..]) <= m
  {
    if gs == [] then 0
    else
      var tail := MaxWeight(gs[1..]);
      if WeightAll(gs[0]) < tail then tail else WeightAll(gs[0])
  }

  lemma {:induction false} MaxWeightBelow(gs: seq<seq<Pattern>>, bound: nat)
    requires bound > 0
    requires forall k :: 0 <= k < |gs| ==> WeightAll(gs[k]) < bound
    ensures MaxWeight(gs) < bound
  {
    if gs != [] {
      MaxWeightBelow(gs[1..], bound);
    }
  }

  // ---------------------------------------------------------------------------
  // One expansion step

  predicate BranchFree(g: seq<Pattern>) {
    forall k :: 0 <= k < |g| ==> g[k].IsLeaf()
  }

  /** `std::find_if` for the first branch of a group. */
  function FirstBranch(g: seq<Pattern>): (r: Maybe<nat>)
    ensures r.None? <==> BranchFree(g)
    ensures r.Some? ==>
      r.value < |g| && g[r.value].IsBranch() && forall k :: 0 <= k < r.value ==> g[k].IsLeaf()
  {
    if g == [] then None
    else if g[0].IsBranch() then Some(0)
    else
      match FirstBranch(g[1..])
      case None => None
      case Some(i) => Some(i + 1)
  }

  /** The group without its element `i`. */
  function Without(g: seq<Pattern>, i: nat): (r: seq<Pattern>)
    requires i < |g|
    ensures |r| == |g| - 1
  {
    g[..i] + g[i + 1..]
  }

  /** The groups that replace a group whose first branch `b` was taken out,
      leaving `rest`. */
  function Replacements(b: Pattern, rest: seq<Pattern>): (r: seq<seq<Pattern>>)
    requires b.IsBranch()
  {
    if b.Either? then seq(|b.children|, k requires 0 <= k < |b.children| => [b.children[k]] + rest)
    else if b.OneOrMore? then [b.children + b.children + rest]
    else [b.children + rest]
  }

  /** The groups that replace `g` when its first branch is the element `i`. */
  function NextGroups(g: seq<Pattern>, i: nat): (r: seq<seq<Pattern>>)
    requires i < |g| && g[i].IsBranch()
  {
    Replacements(g[i], Without(g, i))
  }

  lemma NextGroupsLighter(g: seq<Pattern>, i: nat)
    requires i < |g| && g[i].IsBranch()
    ensures MaxWeight(NextGroups(g, i)) < WeightAll(g)
  {
    WithoutWeight(g, i);
    var next := NextGroups(g, i);
    forall k | 0 <= k < |next|
      ensures WeightAll(next[k]) < WeightAll(g)
    {
      ReplacementLighter(g[i], Without(g, i), k);
    }
    MaxWeightBelow(next, WeightAll(g));
  }

  /** Taking element `i` out of a group takes its weight out. */
  lemma {:induction false} WithoutWeight(g: seq<Pattern>, i: nat)
    requires i < |g|
    ensures WeightAll(g) == WeightAll(Without(g, i)) + Weight(g[i])
  {
    var pre, post := g[..i], g[i + 1..];
    var tail := [g[i]] + post;
    assert g == pre + tail;
    WeightAllAppend(pre, tail);
    assert tail[0] == g[i] && tail[1..] == post;
    assert WeightAll(tail) == Weight(g[i]) + WeightAll(post);
    WeightAllAppend(pre, post);
  }

  /** Each replacement of a branch `b` weighs less than `b` with the rest. */
  lemma ReplacementLighter(b: Pattern, rest: seq<Pattern>, k: nat)
    requires b.IsBranch() && k < |Replacements(b, rest)|
    ensures WeightAll(Replacements(b, rest)[k]) < Weight(b) + WeightAll(rest)
  {
    if b.Either? {
      WeightAllAppend([b.children[k]], rest);
      WeightOfElement(b.children, k);
    } else if b.OneOrMore? {
      WeightAllAppend(b.children + b.children, rest);
      WeightAllAppend(b.children, b.children);
    } else {
      WeightAllAppend(b.children, rest);
    }
  }

  // ---------------------------------------------------------------------------
  // The reference expansion

  /** The branch-free groups a group expands into, depth first. */
  function Expand(g: seq<Pattern>): seq<seq<Pattern>>
    decreases WeightAll(g), 0, 0
  {
    match FirstBranch(g)
    case None => [g]
    case Some(i) =>
      NextGroupsLighter(g, i);
      ExpandList(NextGroups(g, i))
  }

  function ExpandList(gs: seq<seq<Pattern>>): seq<seq<Pattern>>
    decreases MaxWeight(gs), 1, |gs|
  {
    if gs == [] then [] else Expand(gs[0]) + ExpandList(gs[1..])
  }

  /** How many rounds `transform`'s loop spends on a group. */
  function Steps(g: seq<Pattern>): nat
    decreases WeightAll(g), 0, 0
  {
    match FirstBranch(g)
    case None => 1
    case Some(i) =>
      NextGroupsLighter(g, i);
      1 + StepsList(NextGroups(g, i))
  }

  function StepsList(gs: seq<seq<Pattern>>): nat
    decreases MaxWeight(gs), 1, |gs|
  {
    if gs == [] then 0 else Steps(gs[0]) + StepsList(gs[1..])
  }

  lemma ExpandStep(g: seq<Pattern>)
    ensures FirstBranch(g).None? ==> Expand(g) == [g] && Steps(g) == 1
    ensures FirstBranch(g).Some? ==>
      var i := FirstBranch(g).value;
      Expand(g) == ExpandList(NextGroups(g, i)) && Steps(g) == 1 + StepsList(NextGroups(g, i))
  {
  }

  lemma ExpandListCons(gs: seq<seq<Pattern>>)
    requires gs != []
    ensures ExpandList(gs) == Expand(gs[0]) + ExpandList(gs[1..])
    ensures StepsList(gs) == Steps(gs[0]) + StepsList(gs[1..])
  {
  }

  lemma {:induction false} ExpandListAppend(a: seq<seq<Pattern>>, b: seq<seq<Pattern>>)
    ensures ExpandList(a + b) == ExpandList(a) + ExpandList(b)
    ensures StepsList(a + b) == StepsList(a) + StepsList(b)
  {
    if a == [] {
      assert a + b == b;
    } else {
      assert (a + b)[1..] == a[1..] + b;
      ExpandListAppend(a[1..], b);
    }
  }

  /** Every group of the expansion is free of branches. */
  lemma {:induction false} ExpandBranchFree(g: seq<Pattern>)
    decreases WeightAll(g), 0, 0
    ensures forall k :: 0 <= k < |Expand(g)| ==> BranchFree(Expand(g)[k])
  {
    match FirstBranch(g)
    case None =>
    case Some(i) =>
      NextGroupsLighter(g, i);
      ExpandListBranchFree(NextGroups(g, i));
  }

  lemma {:induction false} ExpandListBranchFree(gs: seq<seq<Pattern>>)
    decreases MaxWeight(gs), 1, |gs|
    ensures forall k :: 0 <= k < |ExpandList(gs)| ==> BranchFree(ExpandList(gs)[k])
  {
    if gs != [] {
      ExpandBranchFree(gs[0]);
      ExpandListBranchFree(gs[1..]);
    }
  }

  /** A group that is already free of branches is its own expansion. */
  lemma ExpandOfBranchFree(g: seq<Pattern>)
    requires BranchFree(g)
    ensures Expand(g) == [g]
  {
  }

  /** An Either alone expands into the expansions of its alternatives, in order. */
  lemma EitherExpandsEachAlternative(cs: seq<Pattern>)
    ensures Expand([Either(cs)]) == ExpandList(seq(|cs|, k requires 0 <= k < |cs| => [cs[k]]))
  {
    var g := [Either(cs)];
    assert FirstBranch(g) == Some(0);
    assert Without(g, 0) == [];
    var next := NextGroups(g, 0);
    assert next == seq(|cs|, k requires 0 <= k < |cs| => [cs[k]]) by {
      forall k | 0 <= k < |cs|
        ensures next[k] == [cs[k]]
      {
        assert next[k] == [cs[k]] + [];
      }
    }
  }

  /** A OneOrMore of leaves expands into one group with its leaves twice. */
  lemma OneOrMoreExpandsTwice(cs: seq<Pattern>)
    requires BranchFree(cs)
    ensures Expand([OneOrMore(cs)]) == [cs + cs]
  {
    var g := [OneOrMore(cs)];
    assert FirstBranch(g) == Some(0);
    assert Without(g, 0) == [];
    assert NextGroups(g, 0) == [cs + cs + []];
    assert cs + cs + [] == cs + cs;
    assert BranchFree(cs + cs);
    assert ExpandList([cs + cs]) == Expand(cs + cs) + ExpandList([]);
  }

  // ---------------------------------------------------------------------------
  // transform, as the C++ writes it

  /** The pushes onto the work list for the branch `child` taken out of a
      group, leaving `children`. */
  method Queue(groups: seq<seq<Pattern>>, child: Pattern, children: seq<Pattern>)
    returns (queued: seq<seq<Pattern>>)
    requires child.IsBranch()
    ensures queued == groups + Replacements(child, children)
  {
    queued := groups;
    if child.Either? {
      ghost var next := Replacements(child, children);
      for k := 0 to |child.children|
        invariant queued == groups + next[..k]
      {
        var group := [child.children[k]] + children;
        assert next[..k + 1] == next[..k] + [group];
        queued := queued + [group];
      }
      assert next[..|child.children|] == next;
    } else if child.OneOrMore? {
      var group := child.children + child.children + children;
      queued := queued + [group];
    } else {
      var group := child.children + children;
      queued := queued + [group];
    }
  }

  /** A round that keeps the front group moves it from the work list to the
      result and leaves one round less. */
  lemma KeepRound(result: seq<seq<Pattern>>, groups: seq<seq<Pattern>>)
    requires groups != [] && BranchFree(groups[0])
    ensures multiset(result + [groups[0]]) + multiset(ExpandList(groups[1..]))
      == multiset(result) + multiset(ExpandList(groups))
    ensures StepsList(groups[1..]) < StepsList(groups)
  {
    ExpandListCons(groups);
    ExpandStep(groups[0]);
  }

  /** A round that expands the front group queues its replacements, which
      expand to the same groups in one round less. */
  lemma ExpandRound(groups: seq<seq<Pattern>>, i: nat)
    requires groups != [] && FirstBranch(groups[0]) == Some(i)
    ensures multiset(ExpandList(groups[1..] + NextGroups(groups[0], i))) == multiset(ExpandList(groups))
    ensures StepsList(groups[1..] + NextGroups(groups[0], i)) < StepsList(groups)
  {
    ExpandListCons(groups);
    ExpandStep(groups[0]);
    ExpandListAppend(groups[1..], NextGroups(groups[0], i));
  }

  /** `transform(pattern)`: a work list of groups, each round taking the front
      group and either keeping it (no branch left) or queueing its
      replacements at the back. */
  method Transform(pattern: seq<Pattern>) returns (result: seq<seq<Pattern>>)
    ensures multiset(result) == multiset(Expand(pattern))
    ensures forall k :: 0 <= k < |result| ==> BranchFree(result[k])
  {
    result := [];
    var groups := [pattern];
    ExpandListCons(groups);
    assert ExpandList(groups[1..]) == [];
    while groups != []
      invariant multiset(result) + multiset(ExpandList(groups)) == multiset(Expand(pattern))
      invariant forall k :: 0 <= k < |result| ==> BranchFree(result[k])
      decreases StepsList(groups)
    {
      result, groups := TransformRound(result, groups);
    }
  }

  /** One round of `transform`: the front group is kept when it has no branch
      left, and otherwise replaced by the groups its first branch expands to. */
  method TransformRound(result: seq<seq<Pattern>>, groups: seq<seq<Pattern>>)
    returns (result': seq<seq<Pattern>>, groups': seq<seq<Pattern>>)
    requires groups != []
    requires forall k :: 0 <= k < |result| ==> BranchFree(result[k])
    ensures multiset(result') + multiset(ExpandList(groups')) == multiset(result) + multiset(ExpandList(groups))
    ensures forall k :: 0 <= k < |result'| ==> BranchFree(result'[k])
    ensures StepsList(groups') < StepsList(groups)
  {
    var children := groups[0];
    var childIter := FirstBranch(children);
    if childIter.None? {
      KeepRound(result, groups);
      result' := result + [children];
      groups' := groups[1..];
      return;
    }
    var i := childIter.value;
    var child := children[i];
    ExpandRound(groups, i);
    result' := result;
    children := Without(children, i);
    groups' := Queue(groups[1..], child, children);
  }

  // ---------------------------------------------------------------------------
  // The values of repeated leaves

  /** The value a leaf gets when it repeats within a group: `ensureInt` for a
      Command and a flag Option, `ensureList` for an Argument and an Option
      that takes an argument. */
  function Counted(e: Pattern): (r: Pattern)
    requires e.IsLeaf()
    ensures r.IsLeaf() && r.name == e.name
    ensures r.Argument? == e.Argument? && r.Command? == e.Command? && r.Option? == e.Option?
    ensures r.Option? ==> r.shortOpt == e.shortOpt && r.longOpt == e.longOpt && r.argcount == e.argcount
    ensures e.Command? || (e.Option? && e.argcount == 0) ==> r.value == Long(0)
    ensures e.Argument? || (e.Option? && e.argcount != 0) ==>
      r.value.StringList?
      && (e.value.StringList? ==> r == e)
      && (e.value.String? ==> r.value.list == WordsFrom(e.value.s, AnySpace, 0))
      && (!e.value.String? && !e.value.StringList? ==> r.value.list == [])
  {
    if e.Command? || (e.Option? && e.argcount == 0) then WithValue(e, FromLong(0))
    else if IsStringList(e.value) then e
    else if IsString(e.value) then WithValue(e, FromStringList(WordsFrom(e.value.s, AnySpace, 0)))
    else WithValue(e, FromStringList([]))
  }

  /** A leaf that already counts or collects stays as it is. */
  lemma CountedIdempotent(e: Pattern)
    requires e.IsLeaf()
    ensures Counted(Counted(e)) == Counted(e)
  {
  }

  /** The tree with every leaf in `d` replaced by its counted form. */
  function Fixed(t: Pattern, d: set<Pattern>): (r: Pattern)
    decreases t
    ensures t.IsLeaf() ==> r == (if t in d then Counted(t) else t)
    ensures t.IsBranch() ==> r.IsBranch() && |r.children| == |t.children|
    ensures t.IsBranch() ==> r == t.(children := r.children)
  {
    if t.IsLeaf() then (if t in d then Counted(t) else t)
    else t.(children := seq(|t.children|, k requires 0 <= k < |t.children| => Fixed(t.children[k], d)))
  }

  /** The tree after `setValue` on the one shared leaf object `e`: every leaf
      equal to `e` now holds `v`. */
  function Replaced(t: Pattern, e: Pattern, v: Pattern): (r: Pattern)
    decreases t
  {
    if t.IsLeaf() then (if t == e then v else t)
    else t.(children := seq(|t.children|, k requires 0 <= k < |t.children| => Replaced(t.children[k], e, v)))
  }

  /** Counting one more leaf is one more replacement, whatever was counted
      before: a counted leaf is never changed again. */
  lemma {:induction false} ReplacedAfterFixed(t: Pattern, d: set<Pattern>, e: Pattern)
    requires e.IsLeaf()
    decreases t
    ensures Replaced(Fixed(t, d), e, Counted(e)) == Fixed(t, d + {e})
  {
    if t.IsLeaf() {
      if t in d {
        CountedIdempotent(t);
      }
    } else {
      var f := Fixed(t, d);
      forall k | 0 <= k < |t.children|
        ensures Replaced(f, e, Counted(e)).children[k] == Fixed(t, d + {e}).children[k]
      {
        ReplacedAfterFixed(t.children[k], d, e);
      }
    }
  }

  lemma FixedNothing(t: Pattern)
    decreases t
    ensures Fixed(t, {}) == t
  {
    if t.IsBranch() {
      forall k | 0 <= k < |t.children|
        ensures Fixed(t, {}).children[k] == t.children[k]
      {
        FixedNothing(t.children[k]);
      }
    }
  }

  /** The leaves repeated in the first `k` elements of a group. */
  function RepeatedAmong(g: seq<Pattern>, k: nat): (r: set<Pattern>)
    requires k <= |g|
    ensures forall e :: e in r <==> exists j :: 0 <= j < k && g[j] == e && e.IsLeaf() && multiset(g)[e] > 1
  {
    if k == 0 then {}
    else RepeatedAmong(g, k - 1) + (if g[k - 1].IsLeaf() && multiset(g)[g[k - 1]] > 1 then {g[k - 1]} else {})
  }

  /** The leaves that repeat within one of the groups. */
  function RepeatedIn(gs: seq<seq<Pattern>>): (r: set<Pattern>)
    ensures forall e :: e in r <==> exists g :: g in gs && e in g && e.IsLeaf() && multiset(g)[e] > 1
  {
    if gs == [] then {}
    else
      var g := gs[|gs| - 1];
      assert forall h :: h in gs <==> h in gs[..|gs| - 1] || h == g;
      RepeatedIn(gs[..|gs| - 1]) + RepeatedAmong(g, |g|)
  }

  /** Which leaves repeat depends only on which groups there are. */
  lemma RepeatedInSameGroups(a: seq<seq<Pattern>>, b: seq<seq<Pattern>>)
    requires multiset(a) == multiset(b)
    ensures RepeatedIn(a) == RepeatedIn(b)
  {
    forall g
      ensures g in a <==> g in b
    {
      assert g in a <==> g in multiset(a);
      assert g in b <==> g in multiset(b);
    }
  }

  /** Every leaf under a OneOrMore of leaves repeats, so `a...` collects. */
  lemma OneOrMoreLeavesRepeat(cs: seq<Pattern>)
    requires BranchFree(cs)
    ensures RepeatedIn(Expand([OneOrMore(cs)])) == set k | 0 <= k < |cs| :: cs[k]
  {
    OneOrMoreExpandsTwice(cs);
    forall k | 0 <= k < |cs|
      ensures multiset(cs + cs)[cs[k]] > 1
    {
      assert multiset(cs + cs) == multiset(cs) + multiset(cs);
      assert cs[k] in multiset(cs);
    }
    assert forall e :: e in cs + cs <==> e in cs;
  }

  // ---------------------------------------------------------------------------
  // fix_repeating_arguments, as the C++ writes it

  /** `ensureList`/`ensureInt` on one leaf. */
  method CountLeaf(e: Pattern) returns (r: Pattern)
    requires e.IsLeaf()
    ensures r == Counted(e)
  {
    var ensureInt := e.Command? || (e.Option? && e.argcount == 0);
    if ensureInt {
      return WithValue(e, FromLong(0));
    }
    var newValue := [];
    if IsString(e.value) {
      var s := AsString(e.value).value;
      newValue := Split(s, 0);
    }
    if !IsStringList(e.value) {
      return WithValue(e, FromStringList(newValue));
    }
    return e;
  }

  /** The body of the outer loop for one group: every leaf that repeats in
      the group is counted, in the tree as it stands. `t` is the tree before
      any leaf was counted and `done` the leaves counted so far. */
  method FixGroup(tree: Pattern, group: seq<Pattern>, ghost t: Pattern, ghost done: set<Pattern>)
    returns (fixed: Pattern)
    requires tree == Fixed(t, done)
    ensures fixed == Fixed(t, done + RepeatedAmong(group, |group|))
  {
    fixed := tree;
    ghost var counted := done;
    for k := 0 to |group|
      invariant counted == done + RepeatedAmong(group, k)
      invariant fixed == Fixed(t, counted)
    {
      var e := group[k];
      if multiset(group)[e] == 1 {
        continue;
      }
      if !e.IsLeaf() {
        continue;
      }
      var v := CountLeaf(e);
      ReplacedAfterFixed(t, counted, e);
      fixed := Replaced(fixed, e, v);
      counted := counted + {e};
    }
  }

  /** `fix_repeating_arguments`: each leaf that repeats within a group of
      `transform(children())` is made to count or collect, everywhere it
      occurs in the tree. */
  method FixRepeatingArguments(t: Pattern) returns (tree: Pattern)
    requires t.IsBranch()
    ensures tree == Fixed(t, RepeatedIn(Expand(t.children)))
  {
    var either := Transform(t.children);
    tree := t;
    FixedNothing(t);
    assert either[..0] == [];
    for gi := 0 to |either|
      invariant tree == Fixed(t, RepeatedIn(either[..gi]))
    {
      var group := either[gi];
      assert either[..gi + 1][..gi] == either[..gi];
      tree := FixGroup(tree, group, t, RepeatedIn(either[..gi]));
    }
    assert either[..|either|] == either;
    RepeatedInSameGroups(either, Expand(t.children));
  }

  /** `fix()`: the identities are shared first, then the repeating leaves fixed. */
  method Fix(t: Pattern, hash: Pattern -> int) returns (r: Pattern)
    requires t.IsBranch()
    ensures var shared := FixIdentities(t, hash, map[]).0;
      r == Fixed(shared, RepeatedIn(Expand(shared.children)))
  {
    var shared, _ := FixIdentitiesMethod(t, hash, map[]);
    r := FixRepeatingArguments(shared);
  }
}
