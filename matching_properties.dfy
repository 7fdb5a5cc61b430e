/** What the matcher promises: which element a leaf takes, how counted and
    list-valued leaves accumulate, that a match only ever consumes `left`,
    how `OneOrMore` repeats and how `Either` chooses.
 */
module MatchingProperties {
  import opened Errors
  import opened DocoptValue
  import opened Patterns
  import opened Matching

  // ---------------------------------------------------------------------------
  // single_match

  /** An Argument matches the first Argument (or Command) of `left`, taking
      its value under the pattern's own name; it fails only when there is
      none. */
  lemma ArgumentTakesFirstArgument(p: Pattern, left: seq<Pattern>)
    requires p.Argument?
    ensures SingleMatch(p, left).Some? <==> exists i :: 0 <= i < |left| && left[i].IsArgumentLike()
    ensures SingleMatch(p, left).Some? ==>
      var (i, m) := SingleMatch(p, left).value;
      && left[i].IsArgumentLike()
      && (forall k :: 0 <= k < i ==> !left[k].IsArgumentLike())
      && m == Argument(p.name, left[i].value)
  {
    var first := FirstArgumentFrom(left, 0);
    if first.None? {
      assert forall i :: 0 <= i < |left| ==> !left[i].IsArgumentLike();
    }
  }

  /** A Command looks at the first Argument of `left` only: it matches exactly
      when that argument's value is the string of the command's name, and
      records itself as `true`. */
  lemma CommandLooksAtFirstArgumentOnly(p: Pattern, left: seq<Pattern>)
    requires p.Command?
    ensures SingleMatch(p, left).Some? <==>
      exists i :: && 0 <= i < |left| && left[i].IsArgumentLike()
                  && (forall k :: 0 <= k < i ==> !left[k].IsArgumentLike())
                  && left[i].value == String(p.name)
    ensures SingleMatch(p, left).Some? ==> SingleMatch(p, left).value.1 == Command(p.name, Bool(true))
  {
    var first := FirstArgumentFrom(left, 0);
    if first.Some? {
      EqualIsIdentity(FromString(p.name), left[first.value].value);
    }
    if exists i :: && 0 <= i < |left| && left[i].IsArgumentLike()
                   && (forall k :: 0 <= k < i ==> !left[k].IsArgumentLike())
                   && left[i].value == String(p.name) {
      var i :| && 0 <= i < |left| && left[i].IsArgumentLike()
               && (forall k :: 0 <= k < i ==> !left[k].IsArgumentLike())
               && left[i].value == String(p.name);
      assert first.Some?;
      assert first.value == i;
    }
  }

  /** An Option matches the first leaf of `left` with its name, and collects
      that very leaf. */
  lemma OptionTakesFirstOfItsName(p: Pattern, left: seq<Pattern>)
    requires p.Option?
    ensures SingleMatch(p, left).Some? <==> exists i :: 0 <= i < |left| && left[i].IsLeaf() && left[i].name == p.name
    ensures SingleMatch(p, left).Some? ==>
      var (i, m) := SingleMatch(p, left).value;
      && m == left[i]
      && (forall k :: 0 <= k < i ==> !(left[k].IsLeaf() && left[k].name == p.name))
  {
    var first := FirstNamedFrom(left, p.name, 0);
    if first.None? {
      assert forall i :: 0 <= i < |left| ==> !(left[i].IsLeaf() && left[i].name == p.name);
    }
  }

  // ---------------------------------------------------------------------------
  // LeafPattern::match

  /** A leaf that matches removes exactly one element from `left`. */
  lemma {:induction false} LeafMatchRemovesOne(p: Pattern, left: seq<Pattern>, collected: seq<Pattern>)
    requires p.IsLeaf()
    ensures var r := LeafMatch(p, left, collected);
      r.matched ==> exists i :: && 0 <= i < |left|
                                && r.left == left[..i] + left[i + 1..]
                                && multiset(r.left) + multiset{left[i]} == multiset(left)
  {
    var r := LeafMatch(p, left, collected);
    if r.matched {
      var i := SingleMatch(p, left).value.0;
      assert r.left == left[..i] + left[i + 1..];
      RemoveOneMultiset(left, i);
    }
  }

  /** Taking element `i` out of a sequence takes one copy of it out of its
      multiset. */
  lemma {:induction false} RemoveOneMultiset(s: seq<Pattern>, i: nat)
    requires i < |s|
    ensures multiset(s[..i] + s[i + 1..]) + multiset{s[i]} == multiset(s)
  {
    assert s == s[..i] + [s[i]] + s[i + 1..];
  }

  /** The count a counted leaf keeps under `name`: the Long of the first entry
      with that name, and 0 when there is none or it is not a Long. */
  function CountOf(collected: seq<Pattern>, name: string): int {
    match FirstNamedFrom(collected, name, 0)
    case None => 0
    case Some(j) => if collected[j].value.Long? then collected[j].value.n else 0
  }

  /** The strings a list-valued leaf keeps under `name`. */
  function ListFor(collected: seq<Pattern>, name: string): seq<string> {
    match FirstNamedFrom(collected, name, 0)
    case None => []
    case Some(j) => if collected[j].value.StringList? then collected[j].value.list else []
  }

  lemma {:induction false} FirstNamedAppend(ps: seq<Pattern>, x: Pattern, name: string, i: nat)
    requires i <= |ps| && x.IsLeaf()
    decreases |ps| - i
    ensures FirstNamedFrom(ps + [x], name, i) ==
      if FirstNamedFrom(ps, name, i).Some? then FirstNamedFrom(ps, name, i)
      else if x.name == name then Some(|ps|) else None
  {
    if i < |ps| {
      assert (ps + [x])[i] == ps[i];
      FirstNamedAppend(ps, x, name, i + 1);
    }
  }

  lemma {:induction false} FirstNamedUpdate(ps: seq<Pattern>, j: nat, x: Pattern, name: string, i: nat)
    requires i <= |ps| && j < |ps| && x.IsLeaf() && ps[j].IsLeaf() && x.name == ps[j].name
    decreases |ps| - i
    ensures FirstNamedFrom(ps[j := x], name, i) == FirstNamedFrom(ps, name, i)
  {
    if i < |ps| {
      FirstNamedUpdate(ps, j, x, name, i + 1);
    }
  }

  /** Appending a leaf whose name is new gives that name the leaf's value. */
  lemma FirstNamedAppended(collected: seq<Pattern>, x: Pattern, name: string)
    requires x.IsLeaf() && FirstNamedFrom(collected, x.name, 0).None?
    ensures FirstNamedFrom(collected + [x], name, 0)
      == if name == x.name then Some(|collected|) else FirstNamedFrom(collected, name, 0)
    ensures forall k :: 0 <= k < |collected| ==> (collected + [x])[k] == collected[k]
    ensures (collected + [x])[|collected|] == x
  {
    FirstNamedAppend(collected, x, name, 0);
  }

  /** Replacing the first entry named like `x` by `x` moves no name. */
  lemma FirstNamedUpdated(collected: seq<Pattern>, j: nat, x: Pattern, name: string)
    requires j < |collected| && x.IsLeaf() && FirstNamedFrom(collected, x.name, 0) == Some(j)
    ensures FirstNamedFrom(collected[j := x], name, 0) == FirstNamedFrom(collected, name, 0)
    ensures name != x.name && FirstNamedFrom(collected, name, 0).Some? ==> FirstNamedFrom(collected, name, 0).value != j
  {
    FirstNamedUpdate(collected, j, x, name, 0);
  }

  lemma CountOfAppended(collected: seq<Pattern>, x: Pattern, name: string)
    requires x.IsLeaf() && FirstNamedFrom(collected, x.name, 0).None?
    ensures CountOf(collected + [x], name)
      == if name != x.name then CountOf(collected, name) else if x.value.Long? then x.value.n else 0
  {
    FirstNamedAppended(collected, x, name);
  }

  lemma CountOfUpdated(collected: seq<Pattern>, j: nat, x: Pattern, name: string)
    requires j < |collected| && x.IsLeaf() && FirstNamedFrom(collected, x.name, 0) == Some(j)
    ensures CountOf(collected[j := x], name)
      == if name != x.name then CountOf(collected, name) else if x.value.Long? then x.value.n else 0
  {
    FirstNamedUpdated(collected, j, x, name);
  }

  lemma ListForAppended(collected: seq<Pattern>, x: Pattern, name: string)
    requires x.IsLeaf() && FirstNamedFrom(collected, x.name, 0).None?
    ensures ListFor(collected + [x], name)
      == if name != x.name then ListFor(collected, name) else if x.value.StringList? then x.value.list else []
  {
    FirstNamedAppended(collected, x, name);
  }

  lemma ListForUpdated(collected: seq<Pattern>, j: nat, x: Pattern, name: string)
    requires j < |collected| && x.IsLeaf() && FirstNamedFrom(collected, x.name, 0) == Some(j)
    ensures ListFor(collected[j := x], name)
      == if name != x.name then ListFor(collected, name) else if x.value.StringList? then x.value.list else []
  {
    FirstNamedUpdated(collected, j, x, name);
  }

  /** A counted leaf: each match adds one to the count under its name (the
      first match sets it to 1) and leaves every other name's count alone. */
  lemma {:induction false} CountedLeafAddsOne(p: Pattern, left: seq<Pattern>, collected: seq<Pattern>)
    requires p.IsLeaf() && p.value.Long?
    ensures var r := LeafMatch(p, left, collected);
      r.matched ==> CountOf(r.collected, p.name) == CountOf(collected, p.name) + 1
    ensures var r := LeafMatch(p, left, collected);
      r.matched ==> forall name :: name != p.name ==> CountOf(r.collected, name) == CountOf(collected, name)
  {
    var r := LeafMatch(p, left, collected);
    if r.matched {
      var m := SingleMatch(p, left).value.1;
      match FirstNamedFrom(collected, p.name, 0)
      case None =>
        var x := WithValue(m, FromLong(1));
        forall name {
          CountOfAppended(collected, x, name);
        }
      case Some(j) =>
        var entry := collected[j];
        var x := if entry.value.Long? then WithValue(entry, FromLong(1 + entry.value.n)) else WithValue(entry, FromLong(1));
        assert r.collected == collected[j := x];
        forall name {
          CountOfUpdated(collected, j, x, name);
        }
    }
  }

  /** A list-valued leaf: each match appends the matched strings to the list
      under its name (after the ones already there) and leaves every other
      name's list alone. */
  lemma {:induction false} ListLeafAppends(p: Pattern, left: seq<Pattern>, collected: seq<Pattern>)
    requires p.IsLeaf() && p.value.StringList?
    ensures var r := LeafMatch(p, left, collected);
      r.matched ==> ListFor(r.collected, p.name) == ListFor(collected, p.name) + ListOf(SingleMatch(p, left).value.1.value)
    ensures var r := LeafMatch(p, left, collected);
      r.matched ==> forall name :: name != p.name ==> ListFor(r.collected, name) == ListFor(collected, name)
  {
    var r := LeafMatch(p, left, collected);
    if r.matched {
      var m := SingleMatch(p, left).value.1;
      var val := ListOf(m.value);
      match FirstNamedFrom(collected, p.name, 0)
      case None =>
        var x := WithValue(m, FromStringList(val));
        forall name {
          ListForAppended(collected, x, name);
        }
      case Some(j) =>
        var entry := collected[j];
        var x := if entry.value.StringList? then WithValue(entry, FromStringList(entry.value.list + val)) else WithValue(entry, FromStringList(val));
        assert r.collected == collected[j := x];
        forall name {
          ListForUpdated(collected, j, x, name);
        }
    }
  }

  // ---------------------------------------------------------------------------
  // A match only consumes

  /** Whatever the pattern, the elements left after a match are among those
      there before: a match removes elements and never adds or alters one. */
  lemma {:induction false} MatchConsumes(p: Pattern, left: seq<Pattern>, collected: seq<Pattern>)
    decreases p, 2
    ensures multiset(Match(p, left, collected).left) <= multiset(left)
  {
    match p
    case Argument(_, _) => LeafMatchRemovesOne(p, left, collected);
    case Command(_, _) => LeafMatchRemovesOne(p, left, collected);
    case Option(_, _, _, _, _) => LeafMatchRemovesOne(p, left, collected);
    case Required(_) => RequiredConsumes(p, 0, left, collected);
    case Optional(_) => OptionalConsumes(p, 0, left, collected);
    case OptionsShortcut(_) => OptionalConsumes(p, 0, left, collected);
    case OneOrMore(_) =>
      if |p.children| == 1 {
        var first := Match(p.children[0], left, collected);
        MatchConsumes(p.children[0], left, collected);
        if first.matched {
          RepeatConsumes(p, first.left, first.collected);
        }
      }
    case Either(_) =>
      EitherConsumes(p, 0, left, collected);
  }

  lemma {:induction false} RequiredConsumes(p: Pattern, i: nat, left: seq<Pattern>, collected: seq<Pattern>)
    requires p.IsBranch() && i <= |p.children|
    decreases p, 1, |p.children| - i
    ensures multiset(RequiredFrom(p, i, left, collected).left) <= multiset(left)
  {
    if i < |p.children| {
      var r := Match(p.children[i], left, collected);
      MatchConsumes(p.children[i], left, collected);
      if r.matched {
        assert RequiredFrom(p, i, left, collected) == RequiredFrom(p, i + 1, r.left, r.collected);
        RequiredConsumes(p, i + 1, r.left, r.collected);
      } else {
        assert RequiredFrom(p, i, left, collected).left == left;
      }
    }
  }

  lemma {:induction false} OptionalConsumes(p: Pattern, i: nat, left: seq<Pattern>, collected: seq<Pattern>)
    requires p.IsBranch() && i <= |p.children|
    decreases p, 1, |p.children| - i
    ensures multiset(OptionalFrom(p, i, left, collected).left) <= multiset(left)
  {
    if i < |p.children| {
      var r := Match(p.children[i], left, collected);
      MatchConsumes(p.children[i], left, collected);
      OptionalConsumes(p, i + 1, r.left, r.collected);
    }
  }

  lemma {:induction false} RepeatConsumes(p: Pattern, left: seq<Pattern>, collected: seq<Pattern>)
    requires p.OneOrMore? && |p.children| == 1
    decreases p, 1, |left|
    ensures multiset(RepeatFrom(p, left, collected).left) <= multiset(left)
  {
    var r := Match(p.children[0], left, collected);
    MatchConsumes(p.children[0], left, collected);
    if !r.aborted && r.left != left {
      RepeatConsumes(p, r.left, r.collected);
    }
  }

  lemma {:induction false} EitherConsumes(p: Pattern, i: nat, left: seq<Pattern>, collected: seq<Pattern>)
    requires p.IsBranch() && i <= |p.children|
    decreases p, 1, |p.children| - i
    ensures forall k :: 0 <= k < |EitherOutcomes(p, i, left, collected)| ==>
      multiset(EitherOutcomes(p, i, left, collected)[k].left) <= multiset(left)
  {
    if i < |p.children| {
      MatchConsumes(p.children[i], left, collected);
      EitherConsumes(p, i + 1, left, collected);
    }
  }

  // ---------------------------------------------------------------------------
  // Required, Optional and OneOrMore

  /** A required group of one pattern matches as that pattern does. */
  lemma RequiredOfOne(q: Pattern, left: seq<Pattern>, collected: seq<Pattern>)
    ensures WellFormed(q) ==> WellFormed(Required([q]))
    ensures Match(Required([q]), left, collected) == Match(q, left, collected)
  {
    var p := Required([q]);
    var r := Match(q, left, collected);
    assert p.children[0] == q;
    assert RequiredFrom(p, 0, left, collected)
      == if r.matched then RequiredFrom(p, 1, r.left, r.collected) else MatchResult(false, left, collected, r.aborted);
  }

  /** `Optional` and `[options]` succeed unless a child aborts the run, so
      a well-formed one always succeeds. */
  lemma OptionalAlwaysMatches(p: Pattern, left: seq<Pattern>, collected: seq<Pattern>)
    requires p.Optional? || p.OptionsShortcut?
    ensures Match(p, left, collected).matched <==> !Match(p, left, collected).aborted
    ensures WellFormed(p) ==> Match(p, left, collected).matched
  {
  }

  /** `OneOrMore` aborts the run when it does not have exactly one child;
      otherwise it succeeds exactly when its child matches once and no later
      round aborts. */
  lemma OneOrMoreIffChild(p: Pattern, left: seq<Pattern>, collected: seq<Pattern>)
    requires p.OneOrMore?
    ensures |p.children| != 1 ==> Match(p, left, collected) == MatchResult(false, left, collected, true)
    ensures |p.children| == 1 ==>
      (Match(p, left, collected).matched <==> Match(p.children[0], left, collected).matched && !Match(p, left, collected).aborted)
    ensures WellFormed(p) ==>
      (Match(p, left, collected).matched <==> Match(p.children[0], left, collected).matched)
  {
  }

  /** `OneOrMore` stops only once its child can consume nothing more: one more
      round on what it left would leave `left` and `collected` as they are. */
  lemma OneOrMoreSaturates(p: Pattern, left: seq<Pattern>, collected: seq<Pattern>)
    requires p.OneOrMore? && |p.children| == 1
    ensures var r := Match(p, left, collected);
      r.matched ==> Match(p.children[0], r.left, r.collected) == MatchResult(Match(p.children[0], r.left, r.collected).matched, r.left, r.collected, false)
  {
    var first := Match(p.children[0], left, collected);
    if first.matched && Match(p, left, collected).matched {
      RepeatSaturates(p, first.left, first.collected);
    }
  }

  lemma {:induction false} RepeatSaturates(p: Pattern, left: seq<Pattern>, collected: seq<Pattern>)
    requires p.OneOrMore? && |p.children| == 1
    decreases |left|
    ensures var r := RepeatFrom(p, left, collected);
      r.matched ==>
      && Match(p.children[0], r.left, r.collected).left == r.left
      && Match(p.children[0], r.left, r.collected).collected == r.collected
      && !Match(p.children[0], r.left, r.collected).aborted
  {
    var r := Match(p.children[0], left, collected);
    if !r.aborted && r.left != left {
      RepeatSaturates(p, r.left, r.collected);
    }
  }

  // ---------------------------------------------------------------------------
  // Either

  /** Child `k` of `p` is the one `Either` should adopt: it matched, no child
      that matched left fewer elements, and every earlier child that matched
      left more. */
  ghost predicate FirstShortest(p: Pattern, left: seq<Pattern>, collected: seq<Pattern>, k: nat)
    requires p.IsBranch()
  {
    && k < |p.children|
    && Match(p.children[k], left, collected).matched
    && (forall j :: 0 <= j < |p.children| && Match(p.children[j], left, collected).matched ==>
          |Match(p.children[k], left, collected).left| <= |Match(p.children[j], left, collected).left|)
    && (forall j :: 0 <= j < k && Match(p.children[j], left, collected).matched ==>
          |Match(p.children[j], left, collected).left| > |Match(p.children[k], left, collected).left|)
  }

  /** The same choice on a plain list of outcomes. */
  ghost predicate FirstShortestIn(outs: seq<MatchResult>, k: nat) {
    && k < |outs|
    && outs[k].matched
    && (forall j :: 0 <= j < |outs| && outs[j].matched ==> |outs[k].left| <= |outs[j].left|)
    && (forall j :: 0 <= j < k && outs[j].matched ==> |outs[j].left| > |outs[k].left|)
  }

  /** What each child of `p` does on `left` and `collected`. */
  ghost function ChildOutcomes(p: Pattern, left: seq<Pattern>, collected: seq<Pattern>): (outs: seq<MatchResult>)
    requires p.IsBranch()
    ensures |outs| == |p.children|
    ensures forall j :: 0 <= j < |outs| ==> outs[j] == Match(p.children[j], left, collected)
  {
    seq(|p.children|, j requires 0 <= j < |p.children| => Match(p.children[j], left, collected))
  }

  /** The successful outcomes, in order. */
  function Successful(outs: seq<MatchResult>): (r: seq<MatchResult>)
    ensures forall t :: 0 <= t < |r| ==> r[t].matched
  {
    if outs == [] then [] else (if outs[0].matched then [outs[0]] else []) + Successful(outs[1..])
  }

  /** Where in `outs` each successful outcome sits. */
  function SuccessIndices(outs: seq<MatchResult>): (ix: seq<nat>)
    ensures |ix| == |Successful(outs)|
  {
    if outs == [] then []
    else (if outs[0].matched then [0] else []) + Shifted(SuccessIndices(outs[1..]))
  }

  function Shifted(ix: seq<nat>): (r: seq<nat>)
    ensures |r| == |ix| && forall t :: 0 <= t < |ix| ==> r[t] == ix[t] + 1
  {
    if ix == [] then [] else [ix[0] + 1] + Shifted(ix[1..])
  }

  lemma {:induction false} SuccessIndicesLocate(outs: seq<MatchResult>)
    ensures forall t :: 0 <= t < |SuccessIndices(outs)| ==>
      SuccessIndices(outs)[t] < |outs| && Successful(outs)[t] == outs[SuccessIndices(outs)[t]]
  {
    if outs != [] {
      var rest := outs[1..];
      SuccessIndicesLocate(rest);
      var ix := SuccessIndices(outs);
      var os := Successful(outs);
      var h := if outs[0].matched then 1 else 0;
      forall t | 0 <= t < |ix|
        ensures ix[t] < |outs| && os[t] == outs[ix[t]]
      {
        if t >= h {
          assert ix[t] == SuccessIndices(rest)[t - h] + 1;
          assert os[t] == Successful(rest)[t - h];
        }
      }
    }
  }

  lemma {:induction false} SuccessIndicesIncrease(outs: seq<MatchResult>)
    ensures forall t, u :: 0 <= t < u < |SuccessIndices(outs)| ==> SuccessIndices(outs)[t] < SuccessIndices(outs)[u]
  {
    if outs != [] {
      var rest := outs[1..];
      var h := if outs[0].matched then 1 else 0;
      SuccessIndicesIncrease(rest);
      SuccessIndicesCons(outs, h);
      var ix := SuccessIndices(outs);
      var rx := SuccessIndices(rest);
      forall t, u | 0 <= t < u < |ix| ensures ix[t] < ix[u] {
        assert ix[u] == rx[u - h] + 1;
        if t >= h {
          assert ix[t] == rx[t - h] + 1;
        }
      }
    }
  }

  /** The indices of `outs` are 0 when its head matched, then those of its
      tail, each one higher. */
  lemma {:induction false} SuccessIndicesCons(outs: seq<MatchResult>, h: nat)
    requires outs != [] && h == if outs[0].matched then 1 else 0
    ensures |SuccessIndices(outs)| == h + |SuccessIndices(outs[1..])|
    ensures h == 1 ==> SuccessIndices(outs)[0] == 0
    ensures forall t :: h <= t < |SuccessIndices(outs)| ==>
      SuccessIndices(outs)[t] == SuccessIndices(outs[1..])[t - h] + 1
  {
    var pre: seq<nat> := if outs[0].matched then [0] else [];
    var rx := SuccessIndices(outs[1..]);
    var sx := Shifted(rx);
    var ix := SuccessIndices(outs);
    assert ix == pre + sx;
    assert |pre| == h;
    forall t | h <= t < |ix| ensures ix[t] == rx[t - h] + 1 {
      assert ix[t] == sx[t - h];
    }
  }

  lemma {:induction false} SuccessIndicesCover(outs: seq<MatchResult>, j: nat)
    requires j < |outs| && outs[j].matched
    ensures exists t :: 0 <= t < |SuccessIndices(outs)| && SuccessIndices(outs)[t] == j
  {
    var ix := SuccessIndices(outs);
    var h := if outs[0].matched then 1 else 0;
    SuccessIndicesCons(outs, h);
    if j == 0 {
      assert 0 <= 0 < |ix| && ix[0] == 0;
    } else {
      var rest := outs[1..];
      assert rest[j - 1] == outs[j];
      SuccessIndicesCover(rest, j - 1);
      var rx := SuccessIndices(rest);
      var t :| 0 <= t < |rx| && rx[t] == j - 1;
      assert h <= h + t < |ix|;
      assert ix[h + t] == rx[t] + 1;
    }
  }

  /** `std::min_element` over the successful outcomes finds the first of the
      shortest among all of them. */
  lemma MinOfSuccessful(outs: seq<MatchResult>) returns (k: nat)
    requires Successful(outs) != []
    ensures FirstShortestIn(outs, k)
    ensures Successful(outs)[MinIndex(Successful(outs))] == outs[k]
  {
    SuccessIndicesLocate(outs);
    SuccessIndicesIncrease(outs);
    forall j | 0 <= j < |outs| && outs[j].matched
      ensures exists t :: 0 <= t < |SuccessIndices(outs)| && SuccessIndices(outs)[t] == j
    {
      SuccessIndicesCover(outs, j);
    }
    k := MinOfSubsequence(outs, Successful(outs), SuccessIndices(outs));
  }

  /** The first shortest of a subsequence that holds every successful outcome
      is the first shortest of them all. */
  lemma MinOfSubsequence(outs: seq<MatchResult>, os: seq<MatchResult>, ix: seq<nat>) returns (k: nat)
    requires |ix| == |os| && os != []
    requires forall t :: 0 <= t < |os| ==> os[t].matched
    requires forall t :: 0 <= t < |ix| ==> ix[t] < |outs| && os[t] == outs[ix[t]]
    requires forall t, u :: 0 <= t < u < |ix| ==> ix[t] < ix[u]
    requires forall j :: 0 <= j < |outs| && outs[j].matched ==> exists t :: 0 <= t < |ix| && ix[t] == j
    ensures FirstShortestIn(outs, k)
    ensures os[MinIndex(os)] == outs[k]
  {
    var m := MinIndex(os);
    k := ix[m];
    forall j | 0 <= j < |outs| && outs[j].matched
      ensures |outs[k].left| <= |outs[j].left|
    {
      var t :| 0 <= t < |ix| && ix[t] == j;
      assert os[t] == outs[j];
    }
    forall j | 0 <= j < k && outs[j].matched
      ensures |outs[j].left| > |outs[k].left|
    {
      var t :| 0 <= t < |ix| && ix[t] == j;
      assert t < m;
      assert os[t] == outs[j];
    }
  }

  lemma {:induction false} EitherOutcomesAreSuccessful(p: Pattern, i: nat, left: seq<Pattern>, collected: seq<Pattern>)
    requires p.IsBranch() && i <= |p.children|
    decreases |p.children| - i
    ensures EitherOutcomes(p, i, left, collected) == Successful(ChildOutcomes(p, left, collected)[i..])
  {
    var outs := ChildOutcomes(p, left, collected);
    if i < |p.children| {
      EitherOutcomesAreSuccessful(p, i + 1, left, collected);
      assert outs[i..][1..] == outs[i + 1..];
    } else {
      assert outs[i..] == [];
    }
  }

  /** Only one child is the first of the shortest. */
  lemma FirstShortestUnique(p: Pattern, left: seq<Pattern>, collected: seq<Pattern>, k1: nat, k2: nat)
    requires p.IsBranch()
    requires FirstShortest(p, left, collected, k1) && FirstShortest(p, left, collected, k2)
    ensures k1 == k2
  {
  }

  lemma ShortestAmongChildren(p: Pattern, left: seq<Pattern>, collected: seq<Pattern>, k: nat)
    requires p.IsBranch()
    requires FirstShortestIn(ChildOutcomes(p, left, collected), k)
    ensures FirstShortest(p, left, collected, k)
  {
  }

  /** `Either` aborts the run exactly when one of its children does.
      Otherwise it succeeds exactly when one of its children does, and then
      its outcome is that of the first child among those that left the
      fewest elements; when it fails nothing changes. */
  lemma EitherPicksFirstShortest(p: Pattern, left: seq<Pattern>, collected: seq<Pattern>)
    requires p.Either?
    ensures Match(p, left, collected).aborted <==>
      exists j :: 0 <= j < |p.children| && Match(p.children[j], left, collected).aborted
    ensures !Match(p, left, collected).aborted ==>
      (Match(p, left, collected).matched <==>
         exists j :: 0 <= j < |p.children| && Match(p.children[j], left, collected).matched)
    ensures Match(p, left, collected).matched ==>
      exists k: nat :: FirstShortest(p, left, collected, k) && Match(p, left, collected) == Match(p.children[k], left, collected)
    ensures !Match(p, left, collected).matched ==>
      Match(p, left, collected) == MatchResult(false, left, collected, Match(p, left, collected).aborted)
  {
    if !EitherAborts(p, 0, left, collected) {
      var outs := ChildOutcomes(p, left, collected);
      var os := EitherOutcomes(p, 0, left, collected);
      assert Match(p, left, collected) == if os == [] then MatchResult(false, left, collected, false) else os[MinIndex(os)];
      EitherOutcomesAreSuccessful(p, 0, left, collected);
      assert outs[0..] == outs;
      assert os == Successful(outs);
      if exists j :: 0 <= j < |p.children| && Match(p.children[j], left, collected).matched {
        var j :| 0 <= j < |p.children| && Match(p.children[j], left, collected).matched;
        assert outs[j].matched;
        SuccessIndicesCover(outs, j);
        assert os != [];
      }
      if os != [] {
        var k := MinOfSuccessful(outs);
        ShortestAmongChildren(p, left, collected, k);
        assert Match(p, left, collected) == outs[k];
      }
    }
  }

  // ---------------------------------------------------------------------------
  // The assert of OneOrMore is reached lazily

  /** `Required` gives up at its first child that fails without aborting:
      whatever follows that child, malformed or not, is never reached. */
  lemma RequiredStopsAtFailingChild(p: Pattern, i: nat, left: seq<Pattern>, collected: seq<Pattern>)
    requires p.IsBranch() && i < |p.children|
    requires !Match(p.children[i], left, collected).matched && !Match(p.children[i], left, collected).aborted
    ensures RequiredFrom(p, i, left, collected) == MatchResult(false, left, collected, false)
    ensures i == 0 && p.Required? ==> Match(p, left, collected) == MatchResult(false, left, collected, false)
  {
  }

  /** With usage `prog (x -ab... | y)` the first alternative holds the
      malformed `OneOrMore([-a, -b])`; the argv `y` fails on `x` before it,
      matches the second alternative, and nothing aborts. */
  lemma UnreachedOneOrMoreDoesNotAbort()
    ensures var a := Option("-a", "-a", "", 0, Bool(false));
      var b := Option("-b", "-b", "", 0, Bool(false));
      var first := Required([Command("x", Bool(false)), OneOrMore([a, b])]);
      var second := Required([Command("y", Bool(false))]);
      var p := Required([Either([first, second])]);
      var argv := [Argument("", String("y"))];
      && !WellFormed(p)
      && Match(p, argv, []) == MatchResult(true, [], [Command("y", Bool(true))], false)
  {
    var a := Option("-a", "-a", "", 0, Bool(false));
    var b := Option("-b", "-b", "", 0, Bool(false));
    var first := Required([Command("x", Bool(false)), OneOrMore([a, b])]);
    var second := Required([Command("y", Bool(false))]);
    var e := Either([first, second]);
    var p := Required([e]);
    var argv := [Argument("", String("y"))];
    var m := Command("y", Bool(true));
    assert !WellFormed(first.children[1]);
    assert !WellFormed(e.children[0]);
    FirstAlternativeFails(first, argv);
    SecondAlternativeMatches(second, argv);
    EitherOfFailingAndMatching(e, argv, []);
    RequiredOfOne(e, argv, []);
  }

  /** An Either of two alternatives where the first fails without aborting
      and the second matches gives the second's outcome. */
  lemma EitherOfFailingAndMatching(e: Pattern, left: seq<Pattern>, collected: seq<Pattern>)
    requires e.Either? && |e.children| == 2
    requires Match(e.children[0], left, collected) == MatchResult(false, left, collected, false)
    requires Match(e.children[1], left, collected).matched && !Match(e.children[1], left, collected).aborted
    ensures Match(e, left, collected) == Match(e.children[1], left, collected)
  {
    assert !EitherAborts(e, 2, left, collected);
    assert EitherOutcomes(e, 2, left, collected) == [];
    assert EitherOutcomes(e, 0, left, collected) == [Match(e.children[1], left, collected)];
  }

  lemma FirstAlternativeFails(first: Pattern, argv: seq<Pattern>)
    requires first.Required? && |first.children| > 0 && first.children[0] == Command("x", Bool(false))
    requires argv == [Argument("", String("y"))]
    ensures Match(first, argv, []) == MatchResult(false, argv, [], false)
  {
    var x := first.children[0];
    EqualIsIdentity(FromString("x"), String("y"));
    assert FirstArgumentFrom(argv, 0) == Some(0);
    assert SingleMatch(x, argv).None?;
    RequiredStopsAtFailingChild(first, 0, argv, []);
  }

  lemma SecondAlternativeMatches(second: Pattern, argv: seq<Pattern>)
    requires second == Required([Command("y", Bool(false))])
    requires argv == [Argument("", String("y"))]
    ensures Match(second, argv, []) == MatchResult(true, [], [Command("y", Bool(true))], false)
  {
    var y := second.children[0];
    var m := Command("y", Bool(true));
    EqualIsIdentity(FromString("y"), String("y"));
    assert FirstArgumentFrom(argv, 0) == Some(0);
    assert SingleMatch(y, argv) == Some((0, m));
    assert Match(y, argv, []) == MatchResult(true, [], [m], false);
    RequiredOfOne(y, argv, []);
  }
}
