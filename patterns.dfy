/** The pattern tree of docopt_private.h and include/docopt_private.h.

    A usage pattern is a tree: its leaves are positional arguments, commands
    and options; its branches group children as required, optional, the
    `[options]` shortcut, one-or-more and either-or. The same classes describe
    the user's argv once it is parsed (a flat list of leaves).

    The C++ tree is made of `shared_ptr`s; here a pattern is a value, and a
    pointer the source shares between two places becomes two equal values.
 */
module Patterns {
  import opened Errors
  import opened DocoptValue

  datatype Pattern =
    | Argument(name: string, value: Value)
    | Command(name: string, value: Value)
    | Option(name: string, shortOpt: string, longOpt: string, argcount: int, value: Value)
    | Required(children: seq<Pattern>)
    | Optional(children: seq<Pattern>)
    | OptionsShortcut(children: seq<Pattern>)
    | OneOrMore(children: seq<Pattern>)
    | Either(children: seq<Pattern>)
  {
    /** A `LeafPattern`. */
    predicate IsLeaf() {
      Argument? || Command? || Option?
    }

    /** An `Argument`, which a `Command` also is (it derives from it). */
    predicate IsArgumentLike() {
      Argument? || Command?
    }

    predicate IsBranch() {
      !IsLeaf()
    }
  }

  const BranchNameMessage := "Logic error: name() shouldnt be called on a BranchPattern"

  /** `Pattern::name()`: a leaf's name; a branch throws. */
  function CheckedName(p: Pattern): (r: Result<string>)
    ensures r.Ok? <==> p.IsLeaf()
    ensures r.Ok? ==> r.value == p.name
    ensures r.Err? ==> r.error == RuntimeError(BranchNameMessage)
  {
    if p.IsLeaf() then Ok(p.name) else Err(RuntimeError(BranchNameMessage))
  }

  /** `getValue()`: a leaf's value; a branch throws (with the same message). */
  function CheckedValue(p: Pattern): (r: Result<Value>)
    ensures r.Ok? <==> p.IsLeaf()
    ensures r.Ok? ==> r.value == p.value
    ensures r.Err? ==> r.error == RuntimeError(BranchNameMessage)
  {
    if p.IsLeaf() then Ok(p.value) else Err(RuntimeError(BranchNameMessage))
  }

  /** `hasValue()`: a leaf whose value is not Empty; never a branch. */
  function HasValue(p: Pattern): (r: bool)
    ensures r <==> p.IsLeaf() && !p.value.Empty?
  {
    p.IsLeaf() && Truthy(p.value)
  }

  /** `Option(shortOption, longOption, argcount, v)`: named by its long form
      when it has one; a `false` default of an option that takes an argument
      is replaced by the Empty value. */
  function MakeOption(shortOpt: string, longOpt: string, argcount: int, v: Value): (p: Pattern)
    ensures p.Option? && p.shortOpt == shortOpt && p.longOpt == longOpt && p.argcount == argcount
    ensures longOpt != [] ==> p.name == longOpt
    ensures longOpt == [] ==> p.name == shortOpt
    ensures argcount != 0 ==> p.value != Bool(false)
    ensures p.value != v ==> argcount != 0 && v == Bool(false) && p.value == Empty
  {
    var value := if argcount != 0 && IsBool(v) && !v.b then Default() else v;
    Option(if longOpt == [] then shortOpt else longOpt, shortOpt, longOpt, argcount, value)
  }

  /** `Option(short, long)` with the defaults: no argument, value `false`. */
  function FlagOption(shortOpt: string, longOpt: string): (p: Pattern)
    ensures p == MakeOption(shortOpt, longOpt, 0, Bool(false))
    ensures p.value == Bool(false) && HasValue(p)
  {
    MakeOption(shortOpt, longOpt, 0, FromBool(false))
  }

  /** `Command(name)`: a command's value starts as `false`. */
  function MakeCommand(name: string): (p: Pattern)
    ensures p.Command? && p.name == name && p.value == Bool(false)
  {
    Command(name, FromBool(false))
  }

  /** `Argument(name)`: an argument's value starts Empty. */
  function MakeArgument(name: string): (p: Pattern)
    ensures p.Argument? && p.name == name && !HasValue(p)
  {
    Argument(name, Default())
  }

  /** The leaf `q` after `setValue(v)`. */
  function WithValue(q: Pattern, v: Value): (r: Pattern)
    requires q.IsLeaf()
    ensures r.IsLeaf() && r.name == q.name && r.value == v
    ensures r.Argument? == q.Argument? && r.Command? == q.Command? && r.Option? == q.Option?
    ensures r.Option? ==> r.shortOpt == q.shortOpt && r.longOpt == q.longOpt && r.argcount == q.argcount
  {
    q.(value := v)
  }

  /** The branch `p` with its children replaced (`setChildren`). */
  function SetChildren(p: Pattern, children: seq<Pattern>): (r: Pattern)
    requires p.IsBranch()
    ensures r.IsBranch() && r.children == children
    ensures r.Required? == p.Required? && r.Optional? == p.Optional?
    ensures r.OptionsShortcut? == p.OptionsShortcut? && r.OneOrMore? == p.OneOrMore?
    ensures r.Either? == p.Either?
  {
    p.(children := children)
  }

  /** Every `OneOrMore` of the tree has exactly one child, as
      `OneOrMore::match` asserts when it is reached. The usage parser does
      build others (`-ab...` repeats the group of both options), so the
      matcher checks this only where it gets to. */
  predicate WellFormed(p: Pattern) {
    && (p.OneOrMore? ==> |p.children| == 1)
    && (p.IsBranch() ==> forall i :: 0 <= i < |p.children| ==> WellFormed(p.children[i]))
  }

  // ---------------------------------------------------------------------------
  // flat and collect_leaves

  /** `flat(filter)`: the node itself when the filter accepts it; otherwise
      nothing for a leaf and the children's results, in order, for a branch. */
  function Flat(p: Pattern, filter: Pattern -> bool): (r: seq<Pattern>)
    decreases p, 1
    ensures forall i :: 0 <= i < |r| ==> filter(r[i])
    ensures filter(p) ==> r == [p]
  {
    if filter(p) then [p]
    else if p.IsLeaf() then []
    else FlatAll(p.children, filter)
  }

  function FlatAll(ps: seq<Pattern>, filter: Pattern -> bool): (r: seq<Pattern>)
    decreases ps, 0
    ensures forall i :: 0 <= i < |r| ==> filter(r[i])
  {
    if ps == [] then [] else FlatAll(ps[..|ps| - 1], filter) + Flat(ps[|ps| - 1], filter)
  }

  /** `flat` as the C++ writes it: a loop over the children appending each
      child's result. */
  method FlatMethod(p: Pattern, filter: Pattern -> bool) returns (ret: seq<Pattern>)
    decreases p
    ensures ret == Flat(p, filter)
  {
    if filter(p) {
      return [p];
    }
    if p.IsLeaf() {
      return [];
    }
    ret := [];
    for i := 0 to |p.children|
      invariant ret == FlatAll(p.children[..i], filter)
    {
      var sublist := FlatMethod(p.children[i], filter);
      assert p.children[..i + 1][..i] == p.children[..i];
      ret := ret + sublist;
    }
    assert p.children[..|p.children|] == p.children;
  }

  /** The leaves of `p`, depth first, left to right (`leaves()`). */
  function Leaves(p: Pattern): (r: seq<Pattern>)
    decreases p, 1
    ensures forall i :: 0 <= i < |r| ==> r[i].IsLeaf()
    ensures p.IsLeaf() ==> r == [p]
  {
    if p.IsLeaf() then [p] else LeavesAll(p.children)
  }

  function LeavesAll(ps: seq<Pattern>): (r: seq<Pattern>)
    decreases ps, 0
    ensures forall i :: 0 <= i < |r| ==> r[i].IsLeaf()
  {
    if ps == [] then [] else LeavesAll(ps[..|ps| - 1]) + Leaves(ps[|ps| - 1])
  }

  /** `collect_leaves(lst)`: appends the leaves of `p` to `lst`. */
  method CollectLeaves(p: Pattern, lst: seq<Pattern>) returns (r: seq<Pattern>)
    decreases p
    ensures r == lst + Leaves(p)
  {
    if p.IsLeaf() {
      return lst + [p];
    }
    var children := p.children;
    r := lst;
    for i := 0 to |children|
      invariant r == lst + LeavesAll(children[..i])
    {
      var child := children[i];
      LeavesAllPrefix(children, i);
      var r' := CollectLeaves(child, r);
      assert r' == lst + (LeavesAll(children[..i]) + Leaves(child));
      r := r';
    }
    assert children[..|children|] == children;
  }

  /** The leaves of one more element follow those of the elements before it. */
  lemma {:induction false} LeavesAllPrefix(ps: seq<Pattern>, i: nat)
    requires i < |ps|
    ensures LeavesAll(ps[..i + 1]) == LeavesAll(ps[..i]) + Leaves(ps[i])
  {
    var q := ps[..i + 1];
    assert q[..|q| - 1] == ps[..i];
    assert q[|q| - 1] == ps[i];
  }

  function IsLeafPattern(p: Pattern): bool {
    p.IsLeaf()
  }

  function IsOptionPattern(p: Pattern): bool {
    p.Option?
  }

  function IsOptionsShortcutPattern(p: Pattern): bool {
    p.OptionsShortcut?
  }

  /** Flattening down to the leaves is collecting the leaves: on a tree,
      `flat` with a leaf filter never stops at a branch. */
  lemma {:induction false} FlatLeavesIsLeaves(p: Pattern)
    decreases p, 1
    ensures Flat(p, IsLeafPattern) == Leaves(p)
  {
    if p.IsBranch() {
      FlatAllLeavesIsLeavesAll(p.children);
    }
  }

  lemma {:induction false} FlatAllLeavesIsLeavesAll(ps: seq<Pattern>)
    decreases ps, 0
    ensures FlatAll(ps, IsLeafPattern) == LeavesAll(ps)
  {
    if ps != [] {
      FlatAllLeavesIsLeavesAll(ps[..|ps| - 1]);
      FlatLeavesIsLeaves(ps[|ps| - 1]);
    }
  }

  /** A leaf-only filter finds exactly the leaves it accepts, in order: every
      option of a tree is among its leaves. */
  lemma {:induction false} FlatOptionsAreLeaves(p: Pattern)
    decreases p, 1
    ensures forall i :: 0 <= i < |Flat(p, IsOptionPattern)| ==> Flat(p, IsOptionPattern)[i] in Leaves(p)
  {
    if p.IsBranch() {
      FlatAllOptionsAreLeaves(p.children);
    }
  }

  lemma {:induction false} FlatAllOptionsAreLeaves(ps: seq<Pattern>)
    decreases ps, 0
    ensures forall i :: 0 <= i < |FlatAll(ps, IsOptionPattern)| ==> FlatAll(ps, IsOptionPattern)[i] in LeavesAll(ps)
  {
    if ps != [] {
      FlatAllOptionsAreLeaves(ps[..|ps| - 1]);
      FlatOptionsAreLeaves(ps[|ps| - 1]);
    }
  }

  // ---------------------------------------------------------------------------
  // fix_identities

  /** The hash-set of `fix_identities`, which treats two patterns with the same
      hash as the same: at most one pattern per hash, the first one inserted. */
  type PatternSet = map<int, Pattern>

  ghost predicate Consistent(seen: PatternSet, hash: Pattern -> int) {
    forall h :: h in seen ==> hash(seen[h]) == h
  }

  ghost predicate Injective(hash: Pattern -> int) {
    forall x: Pattern, y: Pattern :: hash(x) == hash(y) ==> x == y
  }

  /** `fix_identities(patterns)` on `p`: each child, after its own children are
      fixed, is replaced by the pattern already in the set with its hash, and is
      inserted when there is none. `hash` stands for `Pattern::hash()`. */
  function FixIdentities(p: Pattern, hash: Pattern -> int, seen: PatternSet): (r: (Pattern, PatternSet))
    decreases p, 1
    ensures p.IsLeaf() ==> r.0 == p
    ensures p.IsBranch() ==> r.0.IsBranch() && |r.0.children| == |p.children|
    ensures forall h :: h in seen ==> h in r.1 && r.1[h] == seen[h]
    ensures Consistent(seen, hash) ==> Consistent(r.1, hash)
  {
    if p.IsLeaf() then (p, seen)
    else
      var (children, seen') := FixChildren(p.children, 0, [], hash, seen);
      (SetChildren(p, children), seen')
  }

  /** The loop of `fix_identities` from child `i` on, `done` holding the
      children already fixed. */
  function FixChildren(ps: seq<Pattern>, i: nat, done: seq<Pattern>, hash: Pattern -> int, seen: PatternSet)
    : (r: (seq<Pattern>, PatternSet))
    requires i <= |ps| && |done| == i
    decreases ps, 0, |ps| - i
    ensures |r.0| == |ps| && r.0[..i] == done
    ensures forall h :: h in seen ==> h in r.1 && r.1[h] == seen[h]
    ensures Consistent(seen, hash) ==> Consistent(r.1, hash)
  {
    if i == |ps| then (done, seen)
    else
      var (fixed, seen1) := FixIdentities(ps[i], hash, seen);
      var h := hash(fixed);
      var (child, seen2) := if h in seen1 then (seen1[h], seen1) else (fixed, seen1[h := fixed]);
      var r := FixChildren(ps, i + 1, done + [child], hash, seen2);
      assert r.0[..i] == r.0[..i + 1][..i];
      r
  }

  /** One child of the loop of `fix_identities`. */
  lemma FixChildrenStep(ps: seq<Pattern>, i: nat, done: seq<Pattern>, hash: Pattern -> int, seen: PatternSet)
    requires i < |ps| && |done| == i
    ensures var (fixed, seen1) := FixIdentities(ps[i], hash, seen);
      var h := hash(fixed);
      FixChildren(ps, i, done, hash, seen)
      == if h in seen1 then FixChildren(ps, i + 1, done + [seen1[h]], hash, seen1)
         else FixChildren(ps, i + 1, done + [fixed], hash, seen1[h := fixed])
  {
  }

  /** `fix_identities` as the C++ writes it: a loop rewriting the children in
      place and recursing into the branches among them. */
  method FixIdentitiesMethod(p: Pattern, hash: Pattern -> int, seen: PatternSet)
    returns (fixed: Pattern, patterns: PatternSet)
    decreases p, 2
    ensures (fixed, patterns) == FixIdentities(p, hash, seen)
  {
    if p.IsLeaf() {
      return p, seen;
    }
    var children;
    children, patterns := FixAllChildren(p.children, hash, seen);
    fixed := SetChildren(p, children);
  }

  /** The loop of `fix_identities` over the children `ps`. */
  method FixAllChildren(ps: seq<Pattern>, hash: Pattern -> int, seen: PatternSet)
    returns (children: seq<Pattern>, patterns: PatternSet)
    decreases ps, 1
    ensures (children, patterns) == FixChildren(ps, 0, [], hash, seen)
  {
    children := [];
    patterns := seen;
    for i := 0 to |ps|
      invariant |children| == i
      invariant FixChildren(ps, i, children, hash, patterns) == FixChildren(ps, 0, [], hash, seen)
    {
      children, patterns := FixChild(ps, i, children, hash, patterns);
    }
  }

  /** One round of the loop of `fix_identities`: child `i` fixed, then shared
      with the pattern of its hash or inserted. */
  method FixChild(ps: seq<Pattern>, i: nat, done: seq<Pattern>, hash: Pattern -> int, seen: PatternSet)
    returns (done': seq<Pattern>, seen': PatternSet)
    requires i < |ps| && |done| == i
    decreases ps, 0
    ensures |done'| == i + 1
    ensures FixChildren(ps, i + 1, done', hash, seen') == FixChildren(ps, i, done, hash, seen)
  {
    var fixedChild, seen1 := FixIdentitiesMethod(ps[i], hash, seen);
    FixChildrenStep(ps, i, done, hash, seen);
    var h := hash(fixedChild);
    if h in seen1 {
      done', seen' := done + [seen1[h]], seen1;
    } else {
      done', seen' := done + [fixedChild], seen1[h := fixedChild];
    }
  }

  /** Every pattern of `ps` is the one the set holds for its hash. */
  ghost predicate Shared(ps: seq<Pattern>, seen: PatternSet, hash: Pattern -> int) {
    forall k :: 0 <= k < |ps| ==> hash(ps[k]) in seen && seen[hash(ps[k])] == ps[k]
  }

  /** After `fix_identities`, every child stands for its hash: it is the
      pattern the set holds for that hash, so two children with equal hashes
      are one and the same pattern. */
  lemma {:induction false} FixChildrenShares(ps: seq<Pattern>, i: nat, done: seq<Pattern>, hash: Pattern -> int, seen: PatternSet)
    requires i <= |ps| && |done| == i
    requires Consistent(seen, hash)
    requires Shared(done, seen, hash)
    decreases |ps| - i
    ensures Shared(FixChildren(ps, i, done, hash, seen).0, FixChildren(ps, i, done, hash, seen).1, hash)
  {
    if i < |ps| {
      var (fixed, seen1) := FixIdentities(ps[i], hash, seen);
      var h := hash(fixed);
      var (child, seen2) := if h in seen1 then (seen1[h], seen1) else (fixed, seen1[h := fixed]);
      assert hash(child) == h && h in seen2 && seen2[h] == child;
      assert Consistent(seen2, hash);
      assert Shared(done + [child], seen2, hash);
      assert FixChildren(ps, i, done, hash, seen) == FixChildren(ps, i + 1, done + [child], hash, seen2);
      FixChildrenShares(ps, i + 1, done + [child], hash, seen2);
    }
  }

  /** When the hash tells every two different patterns apart, `fix_identities`
      changes nothing: each replacement is by an equal pattern. */
  lemma {:induction false} FixIdentitiesInjective(p: Pattern, hash: Pattern -> int, seen: PatternSet)
    requires Injective(hash) && Consistent(seen, hash)
    decreases p, 1
    ensures FixIdentities(p, hash, seen).0 == p
  {
    if p.IsBranch() {
      FixChildrenInjective(p.children, 0, [], hash, seen);
      assert p.children[..0] == [];
    }
  }

  lemma {:induction false} FixChildrenInjective(ps: seq<Pattern>, i: nat, done: seq<Pattern>, hash: Pattern -> int, seen: PatternSet)
    requires Injective(hash) && Consistent(seen, hash)
    requires i <= |ps| && done == ps[..i]
    decreases ps, 0, |ps| - i
    ensures FixChildren(ps, i, done, hash, seen).0 == ps
  {
    if i == |ps| {
      assert ps[..i] == ps;
    } else {
      var (fixed, seen1) := FixIdentities(ps[i], hash, seen);
      FixIdentitiesInjective(ps[i], hash, seen);
      var h := hash(fixed);
      var (child, seen2) := if h in seen1 then (seen1[h], seen1) else (fixed, seen1[h := fixed]);
      assert child == ps[i];
      assert ps[..i + 1] == done + [child];
      FixChildrenInjective(ps, i + 1, done + [child], hash, seen2);
    }
  }
}
