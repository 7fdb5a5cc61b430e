/** The matcher of docopt_private.h (and its out-of-line copy in
    src/docopt.cpp): `match(left, collected)` consumes argv patterns from
    `left` and records what it matched in `collected`.

    `Match` says what a call computes, one function per C++ `match`; the
    methods below it are the C++ loops, each proved to compute `Match`.
    `left` and `collected` are sequences of values: an entry the C++ shares
    between `collected` and a copy of it is a separate value here.
 */
module Matching {
  import opened Errors
  import opened DocoptValue
  import opened Patterns

  /** What a `match` call returns, and what `left` and `collected` hold
      after it. `aborted` records that the `assert` of `OneOrMore::match`
      failed on the way: the program stops there, so an aborted call counts
      as no match and reports `left` and `collected` as they were. */
  datatype MatchResult = MatchResult(matched: bool, left: seq<Pattern>, collected: seq<Pattern>, aborted: bool)

  // ---------------------------------------------------------------------------
  // single_match

  /** The first `Argument` (or `Command`, which is one) of `left` at or after `i`. */
  function FirstArgumentFrom(left: seq<Pattern>, i: nat): (r: Maybe<nat>)
    requires i <= |left|
    decreases |left| - i
    ensures r.Some? ==> i <= r.value < |left| && left[r.value].IsArgumentLike()
    ensures r.Some? ==> forall k :: i <= k < r.value ==> !left[k].IsArgumentLike()
    ensures r.None? ==> forall k :: i <= k < |left| ==> !left[k].IsArgumentLike()
  {
    if i == |left| then None
    else if left[i].IsArgumentLike() then Some(i)
    else FirstArgumentFrom(left, i + 1)
  }

  /** The first leaf of `ps` at or after `i` whose name is `name`. */
  function FirstNamedFrom(ps: seq<Pattern>, name: string, i: nat): (r: Maybe<nat>)
    requires i <= |ps|
    decreases |ps| - i
    ensures r.Some? ==> i <= r.value < |ps| && ps[r.value].IsLeaf() && ps[r.value].name == name
    ensures r.Some? ==> forall k :: i <= k < r.value ==> !(ps[k].IsLeaf() && ps[k].name == name)
    ensures r.None? ==> forall k :: i <= k < |ps| ==> !(ps[k].IsLeaf() && ps[k].name == name)
  {
    if i == |ps| then None
    else if ps[i].IsLeaf() && ps[i].name == name then Some(i)
    else FirstNamedFrom(ps, name, i + 1)
  }

  /** `single_match(left)`: where in `left` the leaf `p` matches, and the
      pattern that records the match.
      - an Argument takes the first Argument of `left`, under its own name;
      - a Command looks at the first Argument only, and matches when that
        argument's value is the command's name;
      - an Option takes the first leaf with its name. */
  function SingleMatch(p: Pattern, left: seq<Pattern>): (r: Maybe<(nat, Pattern)>)
    requires p.IsLeaf()
    ensures r.Some? ==> r.value.0 < |left| && r.value.1.IsLeaf() && r.value.1.name == p.name
  {
    if p.Option? then
      match FirstNamedFrom(left, p.name, 0)
      case None => None
      case Some(i) => Some((i, left[i]))
    else
      match FirstArgumentFrom(left, 0)
      case None => None
      case Some(i) =>
        if p.Argument? then Some((i, Argument(p.name, left[i].value)))
        else if Equal(FromString(p.name), left[i].value) then Some((i, Command(p.name, FromBool(true))))
        else None
  }

  // ---------------------------------------------------------------------------
  // LeafPattern::match

  /** The strings a matched leaf contributes to a list-valued leaf. */
  function ListOf(v: Value): (r: seq<string>)
    ensures v.String? ==> r == [v.s]
    ensures v.StringList? ==> r == v.list
    ensures !v.String? && !v.StringList? ==> r == []
  {
    if IsString(v) then [AsString(v).value]
    else if IsStringList(v) then AsStringList(v).value
    else []
  }

  /** `collected` after the leaf `p` matched, `m` being the match:
      - a counted leaf (Long value) sets the first entry with its name to one
        more than before, or 1 when the entry is not a Long, or appends `m`
        with 1 when there is no such entry;
      - a list-valued leaf extends the list of that entry by the new strings,
        or sets them, or appends `m` with them;
      - any other leaf appends `m`. */
  function Collect(p: Pattern, m: Pattern, collected: seq<Pattern>): (r: seq<Pattern>)
    requires p.IsLeaf() && m.IsLeaf()
    ensures |r| == |collected| || (|r| == |collected| + 1 && r[..|collected|] == collected)
    ensures !IsLong(p.value) && !IsStringList(p.value) ==> r == collected + [m]
    ensures |r| == |collected| ==>
      var j := FirstNamedFrom(collected, p.name, 0);
      && j.Some? && r[j.value].IsLeaf()
      && r == collected[j.value := WithValue(collected[j.value], r[j.value].value)]
  {
    var sameName := FirstNamedFrom(collected, p.name, 0);
    if IsLong(p.value) then
      match sameName
      case None => collected + [WithValue(m, FromLong(1))]
      case Some(j) =>
        var entry := collected[j];
        if IsLong(entry.value) then collected[j := WithValue(entry, FromLong(1 + AsLong(entry.value).value))]
        else collected[j := WithValue(entry, FromLong(1))]
    else if IsStringList(p.value) then
      var val := ListOf(m.value);
      match sameName
      case None => collected + [WithValue(m, FromStringList(val))]
      case Some(j) =>
        var entry := collected[j];
        if IsStringList(entry.value) then collected[j := WithValue(entry, FromStringList(AsStringList(entry.value).value + val))]
        else collected[j := WithValue(entry, FromStringList(val))]
    else collected + [m]
  }

  /** `LeafPattern::match`: nothing changes when `single_match` finds
      nothing; otherwise the matched element leaves `left` and is collected. */
  function LeafMatch(p: Pattern, left: seq<Pattern>, collected: seq<Pattern>): (r: MatchResult)
    requires p.IsLeaf()
    ensures r.matched <==> SingleMatch(p, left).Some?
    ensures !r.matched ==> r.left == left && r.collected == collected
    ensures r.matched ==> |r.left| == |left| - 1
    ensures !r.aborted
  {
    match SingleMatch(p, left)
    case None => MatchResult(false, left, collected, false)
    case Some((i, m)) => MatchResult(true, left[..i] + left[i + 1..], Collect(p, m, collected), false)
  }

  // ---------------------------------------------------------------------------
  // The branches

  /** `match` of any pattern. A call never adds to `left`; when it leaves
      `left` as long as before it consumed nothing and collected nothing; when
      it fails it leaves both `left` and `collected` as they were. A
      `OneOrMore` without exactly one child aborts the run when, and only
      when, the match reaches it; a well-formed pattern never aborts. */
  function Match(p: Pattern, left: seq<Pattern>, collected: seq<Pattern>): (r: MatchResult)
    decreases p, 2, 0
    ensures |r.left| <= |left|
    ensures |r.left| == |left| ==> r.left == left && r.collected == collected
    ensures !r.matched ==> r.left == left && r.collected == collected
    ensures r.aborted ==> !r.matched
    ensures WellFormed(p) ==> !r.aborted
  {
    match p
    case Argument(_, _) => LeafMatch(p, left, collected)
    case Command(_, _) => LeafMatch(p, left, collected)
    case Option(_, _, _, _, _) => LeafMatch(p, left, collected)
    case Required(_) =>
      var r := RequiredFrom(p, 0, left, collected);
      if r.matched then r else MatchResult(false, left, collected, r.aborted)
    case Optional(_) =>
      var r := OptionalFrom(p, 0, left, collected);
      if r.matched then r else MatchResult(false, left, collected, r.aborted)
    case OptionsShortcut(_) =>
      var r := OptionalFrom(p, 0, left, collected);
      if r.matched then r else MatchResult(false, left, collected, r.aborted)
    case OneOrMore(_) =>
      if |p.children| != 1 then MatchResult(false, left, collected, true)
      else
        var first := Match(p.children[0], left, collected);
        if !first.matched then MatchResult(false, left, collected, first.aborted)
        else
          var r := RepeatFrom(p, first.left, first.collected);
          if r.matched then r else MatchResult(false, left, collected, r.aborted)
    case Either(_) =>
      if EitherAborts(p, 0, left, collected) then MatchResult(false, left, collected, true)
      else
        var outcomes := EitherOutcomes(p, 0, left, collected);
        if outcomes == [] then MatchResult(false, left, collected, false)
        else outcomes[MinIndex(outcomes)]
  }

  /** `Required::match` from child `i` on: every child must match, each one
      on what the previous ones left; the first child that fails ends it. */
  function RequiredFrom(p: Pattern, i: nat, left: seq<Pattern>, collected: seq<Pattern>): (r: MatchResult)
    requires p.IsBranch() && i <= |p.children|
    decreases p, 1, |p.children| - i
    ensures |r.left| <= |left|
    ensures |r.left| == |left| ==> r.left == left && r.collected == collected
    ensures r.aborted ==> !r.matched
    ensures WellFormed(p) ==> !r.aborted
  {
    if i == |p.children| then MatchResult(true, left, collected, false)
    else
      var r := Match(p.children[i], left, collected);
      if !r.matched then MatchResult(false, left, collected, r.aborted)
      else RequiredFrom(p, i + 1, r.left, r.collected)
  }

  /** `Optional::match` from child `i` on: each child is tried in turn, and
      the result is true whatever they do, unless one of them aborts. */
  function OptionalFrom(p: Pattern, i: nat, left: seq<Pattern>, collected: seq<Pattern>): (r: MatchResult)
    requires p.IsBranch() && i <= |p.children|
    decreases p, 1, |p.children| - i
    ensures r.matched <==> !r.aborted
    ensures |r.left| <= |left|
    ensures |r.left| == |left| ==> r.left == left && r.collected == collected
    ensures WellFormed(p) ==> !r.aborted
  {
    if i == |p.children| then MatchResult(true, left, collected, false)
    else
      var r := Match(p.children[i], left, collected);
      if r.aborted then MatchResult(false, left, collected, true)
      else OptionalFrom(p, i + 1, r.left, r.collected)
  }

  /** The loop of `OneOrMore::match` after its first successful round: the
      child is matched again until a round leaves `left` as it was. */
  function RepeatFrom(p: Pattern, left: seq<Pattern>, collected: seq<Pattern>): (r: MatchResult)
    requires p.OneOrMore? && |p.children| == 1
    decreases p, 1, |left|
    ensures r.matched <==> !r.aborted
    ensures |r.left| <= |left|
    ensures |r.left| == |left| ==> r.left == left && r.collected == collected
    ensures WellFormed(p) ==> !r.aborted
  {
    var r := Match(p.children[0], left, collected);
    if r.aborted then MatchResult(false, left, collected, true)
    else if r.left == left then MatchResult(true, left, r.collected, false)
    else RepeatFrom(p, r.left, r.collected)
  }

  /** Whether one of `Either::match`'s children from `i` on aborts the run. */
  function EitherAborts(p: Pattern, i: nat, left: seq<Pattern>, collected: seq<Pattern>): (r: bool)
    requires p.IsBranch() && i <= |p.children|
    decreases p, 1, |p.children| - i
    ensures r <==> exists k :: i <= k < |p.children| && Match(p.children[k], left, collected).aborted
    ensures WellFormed(p) ==> !r
  {
    i < |p.children| && (Match(p.children[i], left, collected).aborted || EitherAborts(p, i + 1, left, collected))
  }

  /** The successful outcomes of `Either::match`'s children from `i` on, in
      order, each tried on the same `left` and `collected`. */
  function EitherOutcomes(p: Pattern, i: nat, left: seq<Pattern>, collected: seq<Pattern>): (r: seq<MatchResult>)
    requires p.IsBranch() && i <= |p.children|
    decreases p, 1, |p.children| - i
    ensures forall k :: 0 <= k < |r| ==> r[k].matched && !r[k].aborted
    ensures forall k :: 0 <= k < |r| ==> |r[k].left| <= |left|
    ensures forall k :: 0 <= k < |r| ==> (|r[k].left| == |left| ==> r[k].left == left && r[k].collected == collected)
  {
    if i == |p.children| then []
    else
      var r := Match(p.children[i], left, collected);
      (if r.matched then [r] else []) + EitherOutcomes(p, i + 1, left, collected)
  }

  /** `std::min_element` by the length of the outcome's `left`: the first of
      the shortest. */
  function MinIndex(os: seq<MatchResult>): (k: nat)
    requires os != []
    ensures k < |os|
    ensures forall j :: 0 <= j < |os| ==> |os[k].left| <= |os[j].left|
    ensures forall j :: 0 <= j < k ==> |os[j].left| > |os[k].left|
  {
    MinFrom(os, 1, 0)
  }

  function MinFrom(os: seq<MatchResult>, i: nat, best: nat): (k: nat)
    requires best < i <= |os|
    requires forall j :: 0 <= j < i ==> |os[best].left| <= |os[j].left|
    requires forall j :: 0 <= j < best ==> |os[j].left| > |os[best].left|
    decreases |os| - i
    ensures k < |os|
    ensures forall j :: 0 <= j < |os| ==> |os[k].left| <= |os[j].left|
    ensures forall j :: 0 <= j < k ==> |os[j].left| > |os[k].left|
  {
    if i == |os| then best
    else if |os[i].left| < |os[best].left| then MinFrom(os, i + 1, i)
    else MinFrom(os, i + 1, best)
  }

  // ---------------------------------------------------------------------------
  // The C++ loops

  /** `Argument::single_match`, `Command::single_match` and
      `Option::single_match`: a scan of `left` that stops at the first
      candidate. */
  method SingleMatchScan(p: Pattern, left: seq<Pattern>) returns (r: Maybe<(nat, Pattern)>)
    requires p.IsLeaf()
    ensures r == SingleMatch(p, left)
  {
    if p.Option? {
      for i := 0 to |left|
        invariant FirstNamedFrom(left, p.name, i) == FirstNamedFrom(left, p.name, 0)
      {
        if left[i].IsLeaf() && p.name == left[i].name {
          return Some((i, left[i]));
        }
      }
      return None;
    }
    for i := 0 to |left|
      invariant FirstArgumentFrom(left, i) == FirstArgumentFrom(left, 0)
    {
      if left[i].IsArgumentLike() {
        if p.Argument? {
          return Some((i, Argument(p.name, left[i].value)));
        }
        if Equal(FromString(p.name), left[i].value) {
          return Some((i, Command(p.name, FromBool(true))));
        }
        return None;
      }
    }
    return None;
  }

  /** `LeafPattern::match`. */
  method MatchLeaf(p: Pattern, left: seq<Pattern>, collected: seq<Pattern>)
    returns (matched: bool, newLeft: seq<Pattern>, newCollected: seq<Pattern>)
    requires p.IsLeaf()
    ensures MatchResult(matched, newLeft, newCollected, false) == LeafMatch(p, left, collected)
  {
    var found := SingleMatchScan(p, left);
    if found.None? {
      return false, left, collected;
    }
    var (i, m) := found.value;
    newLeft := left[..i] + left[i + 1..];
    newCollected := CollectMatch(p, m, collected);
    matched := true;
  }

  /** The update of `collected` in `LeafPattern::match`: a counted leaf
      increments, a list-valued leaf extends, any other leaf is appended. */
  method CollectMatch(p: Pattern, m: Pattern, collected: seq<Pattern>) returns (newCollected: seq<Pattern>)
    requires p.IsLeaf() && m.IsLeaf()
    ensures newCollected == Collect(p, m, collected)
  {
    var sameName := FirstNamedFrom(collected, p.name, 0);
    if IsLong(p.value) {
      newCollected := CollectCounted(m, collected, sameName);
    } else if IsStringList(p.value) {
      newCollected := CollectList(m, collected, sameName);
    } else {
      newCollected := collected + [m];
    }
  }

  method CollectCounted(m: Pattern, collected: seq<Pattern>, sameName: Maybe<nat>) returns (newCollected: seq<Pattern>)
    requires m.IsLeaf()
    requires sameName.Some? ==> sameName.value < |collected| && collected[sameName.value].IsLeaf()
    ensures newCollected
      == match sameName
         case None => collected + [WithValue(m, FromLong(1))]
         case Some(j) =>
           var entry := collected[j];
           if IsLong(entry.value) then collected[j := WithValue(entry, FromLong(1 + AsLong(entry.value).value))]
           else collected[j := WithValue(entry, FromLong(1))]
  {
    newCollected := collected;
    var val := 1;
    if sameName.None? {
      newCollected := newCollected + [WithValue(m, FromLong(val))];
    } else if IsLong(newCollected[sameName.value].value) {
      val := val + AsLong(newCollected[sameName.value].value).value;
      newCollected := newCollected[sameName.value := WithValue(newCollected[sameName.value], FromLong(val))];
    } else {
      newCollected := newCollected[sameName.value := WithValue(newCollected[sameName.value], FromLong(val))];
    }
  }

  method CollectList(m: Pattern, collected: seq<Pattern>, sameName: Maybe<nat>) returns (newCollected: seq<Pattern>)
    requires m.IsLeaf()
    requires sameName.Some? ==> sameName.value < |collected| && collected[sameName.value].IsLeaf()
    ensures newCollected
      == match sameName
         case None => collected + [WithValue(m, FromStringList(ListOf(m.value)))]
         case Some(j) =>
           var entry := collected[j];
           if IsStringList(entry.value) then collected[j := WithValue(entry, FromStringList(AsStringList(entry.value).value + ListOf(m.value)))]
           else collected[j := WithValue(entry, FromStringList(ListOf(m.value)))]
  {
    newCollected := collected;
    var val: seq<string> := [];
    if IsString(m.value) {
      val := val + [AsString(m.value).value];
    } else if IsStringList(m.value) {
      val := AsStringList(m.value).value;
    }
    assert val == ListOf(m.value);
    if sameName.None? {
      newCollected := newCollected + [WithValue(m, FromStringList(val))];
    } else if IsStringList(newCollected[sameName.value].value) {
      var list := AsStringList(newCollected[sameName.value].value).value;
      val := list + val;
      newCollected := newCollected[sameName.value := WithValue(newCollected[sameName.value], FromStringList(val))];
    } else {
      newCollected := newCollected[sameName.value := WithValue(newCollected[sameName.value], FromStringList(val))];
    }
  }

  /** The virtual `match`, dispatched on the kind of `p`; `aborted` is the
      failed `assert` of a `OneOrMore` on the way, which ends the run. */
  method MatchPattern(p: Pattern, left: seq<Pattern>, collected: seq<Pattern>)
    returns (matched: bool, newLeft: seq<Pattern>, newCollected: seq<Pattern>, aborted: bool)
    decreases p, 1
    ensures MatchResult(matched, newLeft, newCollected, aborted) == Match(p, left, collected)
  {
    if p.IsLeaf() {
      matched, newLeft, newCollected := MatchLeaf(p, left, collected);
      aborted := false;
    } else if p.Required? {
      matched, newLeft, newCollected, aborted := MatchRequired(p, left, collected);
    } else if p.Optional? || p.OptionsShortcut? {
      matched, newLeft, newCollected, aborted := MatchOptional(p, left, collected);
    } else if p.OneOrMore? {
      matched, newLeft, newCollected, aborted := MatchOneOrMore(p, left, collected);
    } else {
      matched, newLeft, newCollected, aborted := MatchEither(p, left, collected);
    }
  }

  /** `Required::match`: works on copies and commits them only when every
      child matched. */
  method MatchRequired(p: Pattern, left: seq<Pattern>, collected: seq<Pattern>)
    returns (matched: bool, newLeft: seq<Pattern>, newCollected: seq<Pattern>, aborted: bool)
    requires p.Required?
    decreases p, 0
    ensures MatchResult(matched, newLeft, newCollected, aborted) == Match(p, left, collected)
  {
    var l := left;
    var c := collected;
    for i := 0 to |p.children|
      invariant RequiredFrom(p, i, l, c) == RequiredFrom(p, 0, left, collected)
    {
      var ret, l', c', stop := MatchPattern(p.children[i], l, c);
      if !ret {
        return false, left, collected, stop;
      }
      l, c := l', c';
    }
    return true, l, c, false;
  }

  /** `Optional::match`: every child in turn on the same `left` and
      `collected`; true unless a child aborts. */
  method MatchOptional(p: Pattern, left: seq<Pattern>, collected: seq<Pattern>)
    returns (matched: bool, newLeft: seq<Pattern>, newCollected: seq<Pattern>, aborted: bool)
    requires p.Optional? || p.OptionsShortcut?
    decreases p, 0
    ensures MatchResult(matched, newLeft, newCollected, aborted) == Match(p, left, collected)
  {
    newLeft, newCollected := left, collected;
    for i := 0 to |p.children|
      invariant OptionalFrom(p, i, newLeft, newCollected) == OptionalFrom(p, 0, left, collected)
    {
      var _, l, c, stop := MatchPattern(p.children[i], newLeft, newCollected);
      if stop {
        return false, left, collected, true;
      }
      newLeft, newCollected := l, c;
    }
    matched, aborted := true, false;
  }

  /** `OneOrMore::match`: asserts that it has one child, then matches it
      until a round no longer changes `l`; fails, changing nothing, when the
      child never matched. */
  method MatchOneOrMore(p: Pattern, left: seq<Pattern>, collected: seq<Pattern>)
    returns (ok: bool, newLeft: seq<Pattern>, newCollected: seq<Pattern>, aborted: bool)
    requires p.OneOrMore?
    decreases p, 0
    ensures MatchResult(ok, newLeft, newCollected, aborted) == Match(p, left, collected)
  {
    if |p.children| != 1 {
      return false, left, collected, true;
    }
    ghost var first := Match(p.children[0], left, collected);
    var l := left;
    var c := collected;
    var matched := true;
    var times: nat := 0;
    var l_: seq<Pattern> := [];
    var firstLoop := true;
    while matched
      invariant firstLoop ==> matched && times == 0 && l == left && c == collected
      invariant !firstLoop ==> (matched <==> times > 0)
      invariant !firstLoop && times == 0 ==> !first.matched && !first.aborted
      invariant !firstLoop && times > 0 ==> first.matched && l_ == l
      invariant !firstLoop && times > 0 ==> RepeatFrom(p, l, c) == RepeatFrom(p, first.left, first.collected)
      decreases if firstLoop then |left| + 2 else |l| + 1
    {
      var m, l2, c2, stop := MatchPattern(p.children[0], l, c);
      if stop {
        return false, left, collected, true;
      }
      matched, l, c := m, l2, c2;
      if matched {
        times := times + 1;
      }
      if firstLoop {
        firstLoop := false;
      } else if l == l_ {
        break;
      }
      l_ := l;
    }
    if times == 0 {
      return false, left, collected, false;
    }
    return true, l, c, false;
  }

  /** `Either::match`: tries every child on its own copy of the state, then
      adopts the outcome that left the fewest elements. */
  method MatchEither(p: Pattern, left: seq<Pattern>, collected: seq<Pattern>)
    returns (matched: bool, newLeft: seq<Pattern>, newCollected: seq<Pattern>, aborted: bool)
    requires p.Either?
    decreases p, 0
    ensures MatchResult(matched, newLeft, newCollected, aborted) == Match(p, left, collected)
  {
    var outcomes: seq<MatchResult> := [];
    for i := 0 to |p.children|
      invariant outcomes + EitherOutcomes(p, i, left, collected) == EitherOutcomes(p, 0, left, collected)
      invariant EitherAborts(p, i, left, collected) == EitherAborts(p, 0, left, collected)
    {
      var o, stop := EitherRound(p, i, left, collected);
      if stop {
        return false, left, collected, true;
      }
      AppendAssociates(outcomes, o, EitherOutcomes(p, i + 1, left, collected));
      outcomes := outcomes + o;
    }
    assert outcomes == EitherOutcomes(p, 0, left, collected);
    if outcomes == [] {
      return false, left, collected, false;
    }
    var min := MinIndex(outcomes);
    return true, outcomes[min].left, outcomes[min].collected, false;
  }

  /** One child of `Either::match`: its outcome when it matched, nothing
      otherwise, and whether it aborted the run. */
  method EitherRound(p: Pattern, i: nat, left: seq<Pattern>, collected: seq<Pattern>)
    returns (o: seq<MatchResult>, stop: bool)
    requires p.Either? && i < |p.children|
    decreases p, 0, 0
    ensures o + EitherOutcomes(p, i + 1, left, collected) == EitherOutcomes(p, i, left, collected)
    ensures stop == Match(p.children[i], left, collected).aborted
    ensures !stop ==> EitherAborts(p, i, left, collected) == EitherAborts(p, i + 1, left, collected)
  {
    var m, l, c, a := MatchPattern(p.children[i], left, collected);
    o := if m then [MatchResult(m, l, c, a)] else [];
    stop := a;
  }

  lemma AppendAssociates(a: seq<MatchResult>, b: seq<MatchResult>, c: seq<MatchResult>)
    ensures a + (b + c) == (a + b) + c
  {
  }
}
