/** The top of docopt.cpp: `isOptionSet` and `extras`, `create_pattern_tree`
    and `docopt_parse`.

    The text scanning of the usage string (`parse_section`, `parse_defaults`
    and `Tokens::from_pattern`, all regular expressions) is not modelled: its
    results are the parameters `usageSections` (the `usage:` sections of the
    doc), `defaults` (the options its `options:` sections describe) and
    `fromPattern` (the tokens of a formal usage). `hash` stands for
    `Pattern::hash()`.

    Each operation is a function saying what it computes and a method that
    does it the way the C++ does, proved to compute the function.
 */
module Docopt {
  import opened Errors
  import opened DocoptUtil
  import opened DocoptValue
  import opened Patterns
  import opened Matching
  import Expansion
  import Grammar
  import Parser

  // ---------------------------------------------------------------------------
  // isOptionSet and extras

  /** The name test of `isOptionSet`: `opt1`, or `opt2` when it is not empty. */
  predicate Named(p: Pattern, opt1: string, opt2: string)
    requires p.IsLeaf()
  {
    p.name == opt1 || (opt2 != "" && p.name == opt2)
  }

  predicate AllLeaves(ps: seq<Pattern>) {
    forall k :: 0 <= k < |ps| ==> ps[k].IsLeaf()
  }

  /** `isOptionSet(options, opt1, opt2)`: `std::any_of` over the patterns of
      argv, true for one that has the name and a value. Asking a branch for
      its name throws, so a branch reached before any hit is an error. */
  function IsOptionSet(options: seq<Pattern>, opt1: string, opt2: string): (r: Result<bool>)
    ensures r.Err? ==> r.error == RuntimeError(BranchNameMessage) && !AllLeaves(options)
    ensures AllLeaves(options) ==>
      r.Ok? && (r.value <==> exists k :: 0 <= k < |options| && Named(options[k], opt1, opt2) && HasValue(options[k]))
  {
    if options == [] then Ok(false)
    else if !options[0].IsLeaf() then Err(RuntimeError(BranchNameMessage))
    else if Named(options[0], opt1, opt2) && HasValue(options[0]) then Ok(true)
    else
      var r := IsOptionSet(options[1..], opt1, opt2);
      assert AllLeaves(options) ==> AllLeaves(options[1..]);
      assert forall k :: 1 <= k < |options| ==> options[k] == options[1..][k - 1];
      r
  }

  /** `extras(help, version, options)`: `-h` or `--help` given with a value
      asks for the help text, `--version` for the version, the former first;
      each test is made only when its flag is on. */
  function Extras(help: bool, version: bool, options: seq<Pattern>): (r: Result<()>)
    ensures !help && !version ==> r == Ok(())
    ensures r == Err(ExitHelp) ==> help
    ensures r == Err(ExitVersion) ==> version && (!help || IsOptionSet(options, "-h", "--help") == Ok(false))
    ensures r.Err? ==> r.error == ExitHelp || r.error == ExitVersion || r.error == RuntimeError(BranchNameMessage)
  {
    var helpSet :- if help then IsOptionSet(options, "-h", "--help") else Ok(false);
    if helpSet then Err(ExitHelp)
    else
      var versionSet :- if version then IsOptionSet(options, "--version", "") else Ok(false);
      if versionSet then Err(ExitVersion) else Ok(())
  }

  /** On the patterns of argv, which are leaves, `extras` stops with the help
      exactly when help is on and `-h` or `--help` is set, with the version
      exactly when that is not so and version is on and `--version` is set,
      and otherwise lets the parse go on. */
  lemma ExtrasOutcome(help: bool, version: bool, options: seq<Pattern>)
    requires AllLeaves(options)
    ensures var helpSet := exists k :: 0 <= k < |options| && Named(options[k], "-h", "--help") && HasValue(options[k]);
      var versionSet := exists k :: 0 <= k < |options| && Named(options[k], "--version", "") && HasValue(options[k]);
      && (Extras(help, version, options) == Err(ExitHelp) <==> help && helpSet)
      && (Extras(help, version, options) == Err(ExitVersion) <==> !(help && helpSet) && version && versionSet)
      && (Extras(help, version, options) == Ok(()) <==> !(help && helpSet) && !(version && versionSet))
  {
    var _ := IsOptionSet(options, "-h", "--help");
    var _ := IsOptionSet(options, "--version", "");
  }

  // ---------------------------------------------------------------------------
  // create_pattern_tree

  const UsageNotFound := "'usage:' (case-insensitive) not found."
  const MoreThanOneUsage := "More than one 'usage:' (case-insensitive)."

  /** The hashes of a list of patterns: the set `std::unordered_set` with
      `PatternHasher` and `PatternPointerEquality` keeps. */
  function Hashes(ps: seq<Pattern>, hash: Pattern -> int): (r: set<int>)
    ensures forall k :: 0 <= k < |ps| ==> hash(ps[k]) in r
    ensures forall h :: h in r ==> exists k :: 0 <= k < |ps| && hash(ps[k]) == h
  {
    set k | 0 <= k < |ps| :: hash(ps[k])
  }

  /** The children of `[options]`: the documented options whose hash is not
      `covered` (by an option of the pattern, or by a documented option taken
      before), each hash once, in the order of the documentation. */
  function Uncovered(docOptions: seq<Pattern>, covered: set<int>, hash: Pattern -> int): (r: seq<Pattern>)
    ensures forall k :: 0 <= k < |r| ==> r[k] in docOptions && hash(r[k]) !in covered
    ensures forall j, k :: 0 <= j < k < |r| ==> hash(r[j]) != hash(r[k])
  {
    if docOptions == [] then []
    else
      var o := docOptions[0];
      if hash(o) in covered then Uncovered(docOptions[1..], covered, hash)
      else
        var rest := Uncovered(docOptions[1..], covered + {hash(o)}, hash);
        [o] + rest
  }

  /** No documented option is lost: each one that the pattern does not cover
      is among the children, or one with its hash is. */
  lemma {:induction false} UncoveredComplete(docOptions: seq<Pattern>, covered: set<int>, hash: Pattern -> int, k: nat)
    requires k < |docOptions| && hash(docOptions[k]) !in covered
    ensures exists j :: 0 <= j < |Uncovered(docOptions, covered, hash)| && hash(Uncovered(docOptions, covered, hash)[j]) == hash(docOptions[k])
  {
    var o := docOptions[0];
    var r := Uncovered(docOptions, covered, hash);
    if k == 0 {
      assert r[0] == o;
    } else {
      assert docOptions[1..][k - 1] == docOptions[k];
      if hash(o) in covered {
        UncoveredComplete(docOptions[1..], covered, hash, k - 1);
      } else if hash(docOptions[k]) == hash(o) {
        assert r[0] == o;
      } else {
        var covered' := covered + {hash(o)};
        UncoveredComplete(docOptions[1..], covered', hash, k - 1);
        var rest := Uncovered(docOptions[1..], covered', hash);
        var j :| 0 <= j < |rest| && hash(rest[j]) == hash(docOptions[k]);
        assert r[j + 1] == rest[j];
      }
    }
  }

  /** The loop of `create_pattern_tree` that gathers `set(doc_options) -
      set(pattern_options)`. */
  method UniqueDocOptions(docOptions: seq<Pattern>, patternOptions: seq<Pattern>, hash: Pattern -> int)
    returns (children: seq<Pattern>)
    ensures children == Uncovered(docOptions, Hashes(patternOptions, hash), hash)
  {
    var uniqPatternOptions := set k | 0 <= k < |patternOptions| :: hash(patternOptions[k]);
    var uniqDocOptions: set<int> := {};
    ghost var covered := uniqPatternOptions;
    children := [];
    assert docOptions[0..] == docOptions;
    for i := 0 to |docOptions|
      invariant covered == uniqPatternOptions + uniqDocOptions
      invariant children + Uncovered(docOptions[i..], covered, hash) == Uncovered(docOptions, uniqPatternOptions, hash)
    {
      var opt := docOptions[i];
      UncoveredStep(docOptions, i, covered, hash);
      if hash(opt) in uniqPatternOptions {
        continue;
      }
      if hash(opt) !in uniqDocOptions {
        var rest := Uncovered(docOptions[i + 1..], covered + {hash(opt)}, hash);
        assert (children + [opt]) + rest == children + ([opt] + rest);
        children := children + [opt];
        uniqDocOptions := uniqDocOptions + {hash(opt)};
        covered := covered + {hash(opt)};
      }
    }
    assert docOptions[|docOptions|..] == [];
  }

  lemma UncoveredStep(docOptions: seq<Pattern>, i: nat, covered: set<int>, hash: Pattern -> int)
    requires i < |docOptions|
    ensures var o := docOptions[i];
      Uncovered(docOptions[i..], covered, hash)
      == if hash(o) in covered then Uncovered(docOptions[i + 1..], covered, hash)
         else [o] + Uncovered(docOptions[i + 1..], covered + {hash(o)}, hash)
  {
    assert docOptions[i..][1..] == docOptions[i + 1..];
  }

  /** Every `[options]` node of the tree with the given children: the effect
      of `setChildren` on each node `flat_filter<OptionsShortcut>` finds. */
  function FillShortcuts(p: Pattern, children: seq<Pattern>): (r: Pattern)
    decreases p, 1
    ensures p.IsLeaf() ==> r == p
    ensures p.IsBranch() ==> r.IsBranch()
  {
    if p.IsLeaf() then p
    else if p.OptionsShortcut? then OptionsShortcut(children)
    else SetChildren(p, FillAll(p.children, children))
  }

  function FillAll(ps: seq<Pattern>, children: seq<Pattern>): (r: seq<Pattern>)
    decreases ps, 0
    ensures |r| == |ps|
  {
    if ps == [] then [] else FillAll(ps[..|ps| - 1], children) + [FillShortcuts(ps[|ps| - 1], children)]
  }

  /** After the fill, every `[options]` node of the tree holds the given
      children, there are as many as before, and the leaves outside them are
      the leaves of before. */
  lemma {:induction false} FillShortcutsFills(p: Pattern, children: seq<Pattern>)
    decreases p, 1
    ensures var before := Flat(p, IsOptionsShortcutPattern);
      var after := Flat(FillShortcuts(p, children), IsOptionsShortcutPattern);
      |after| == |before| && forall k :: 0 <= k < |after| ==> after[k] == OptionsShortcut(children)
  {
    if p.IsBranch() && !p.OptionsShortcut? {
      FillAllFills(p.children, children);
    }
  }

  lemma {:induction false} FillAllFills(ps: seq<Pattern>, children: seq<Pattern>)
    decreases ps, 0
    ensures var before := FlatAll(ps, IsOptionsShortcutPattern);
      var after := FlatAll(FillAll(ps, children), IsOptionsShortcutPattern);
      |after| == |before| && forall k :: 0 <= k < |after| ==> after[k] == OptionsShortcut(children)
  {
    if ps != [] {
      var front := ps[..|ps| - 1];
      var filled := FillAll(ps, children);
      FillAllFills(front, children);
      FillShortcutsFills(ps[|ps| - 1], children);
      assert filled[..|filled| - 1] == FillAll(front, children);
      assert filled[|filled| - 1] == FillShortcuts(ps[|ps| - 1], children);
    }
  }

  /** `create_pattern_tree(doc)`: exactly one usage section, its formal usage
      parsed against the documented options, then the `[options]` nodes
      filled. The options come back with those the pattern added. */
  function PatternTree(usageSections: seq<string>, defaults: seq<Pattern>, fromPattern: string -> seq<string>, hash: Pattern -> int)
    : (r: Result<(Pattern, seq<Pattern>)>)
    requires Grammar.AllOptions(defaults)
    ensures r.Ok? ==> |usageSections| == 1 && r.value.0.Required? && Grammar.AllOptions(r.value.1) && defaults <= r.value.1
    ensures usageSections == [] ==> r == Err(LanguageError(UsageNotFound))
    ensures |usageSections| > 1 ==> r == Err(LanguageError(MoreThanOneUsage))
  {
    if usageSections == [] then Err(LanguageError(UsageNotFound))
    else if |usageSections| > 1 then Err(LanguageError(MoreThanOneUsage))
    else
      var parsed :- Grammar.ParsePattern(fromPattern(Grammar.FormalUsage(usageSections[0])), defaults);
      var patternOptions := Flat(parsed.0, IsOptionPattern);
      var children := Uncovered(defaults, Hashes(patternOptions, hash), hash);
      Ok((FillShortcuts(parsed.0, children), parsed.1))
  }

  /** `create_pattern_tree` as the C++ writes it. */
  method CreatePatternTree(usageSections: seq<string>, defaults: seq<Pattern>, fromPattern: string -> seq<string>, hash: Pattern -> int)
    returns (r: Result<(Pattern, seq<Pattern>)>)
    requires Grammar.AllOptions(defaults)
    ensures r == PatternTree(usageSections, defaults, fromPattern, hash)
  {
    if |usageSections| == 0 {
      return Err(LanguageError(UsageNotFound));
    }
    if |usageSections| > 1 {
      return Err(LanguageError(MoreThanOneUsage));
    }
    var options := new Parser.OptionList(defaults);
    var formal := Parser.FormalUsage(usageSections[0]);
    var pattern :- Parser.ParsePattern(fromPattern(formal), options);
    var patternOptions := FlatMethod(pattern, IsOptionPattern);
    var children := UniqueDocOptions(defaults, patternOptions, hash);
    return Ok((FillShortcuts(pattern, children), options.items));
  }

  // ---------------------------------------------------------------------------
  // docopt_parse

  const NoMatchMessage := "Arguments did not match expected patterns"
  const UnexpectedPrefix := "Unexpected argument: "

  /** The message of the `assert` of `OneOrMore::match`. */
  const OneChildMessage := "fChildren.size() == 1"

  /** `ret[p->name()] = p->getValue()` for each pattern in turn: a later
      pattern of the same name overrides an earlier one. Only leaves occur
      here (`leaves()` and `collected`); anything else is passed over. */
  function NamedValues(ps: seq<Pattern>): (m: map<string, Value>)
  {
    if ps == [] then map[]
    else
      var p := ps[|ps| - 1];
      var m := NamedValues(ps[..|ps| - 1]);
      if p.IsLeaf() then m[p.name := p.value] else m
  }

  /** `ps[k]` is the last leaf of `ps` named `name`. */
  predicate LastNamed(ps: seq<Pattern>, k: nat, name: string)
    requires k < |ps|
  {
    ps[k].IsLeaf() && ps[k].name == name
    && forall j :: k < j < |ps| ==> !(ps[j].IsLeaf() && ps[j].name == name)
  }

  /** A name is a key exactly when some leaf has it, and it maps to the value
      of the last leaf with that name. */
  lemma {:induction false} NamedValuesLast(ps: seq<Pattern>, name: string)
    ensures name in NamedValues(ps) <==> exists k :: 0 <= k < |ps| && ps[k].IsLeaf() && ps[k].name == name
    ensures forall k :: 0 <= k < |ps| && LastNamed(ps, k, name) ==> NamedValues(ps)[name] == ps[k].value
  {
    if ps != [] {
      var front := ps[..|ps| - 1];
      NamedValuesLast(front, name);
      assert forall k :: 0 <= k < |front| ==> front[k] == ps[k];
    }
  }

  /** `pattern.fix()`: the identities are shared, then the repeated leaves
      made to count or collect. */
  function FixedTree(t: Pattern, hash: Pattern -> int): (r: Pattern)
    requires t.IsBranch()
  {
    var shared := FixIdentities(t, hash, map[]).0;
    Expansion.Fixed(shared, Expansion.RepeatedIn(Expansion.Expand(shared.children)))
  }

  /** An `OptionError` of the usage becomes a `DocoptLanguageError`. */
  function AsLanguageError(e: Error): (r: Error)
    ensures e.OptionError? ==> r == LanguageError(e.message)
    ensures !e.OptionError? ==> r == e
  {
    if e.OptionError? then LanguageError(e.message) else e
  }

  /** An `OptionError` of argv becomes a `DocoptArgumentError`. */
  function AsArgumentError(e: Error): (r: Error)
    ensures e.OptionError? ==> r == ArgumentError(e.message)
    ensures !e.OptionError? ==> r == e
  {
    if e.OptionError? then ArgumentError(e.message) else e
  }

  /** The match of `docopt_parse` on the fixed pattern: success needs the
      match to succeed and to leave nothing over; a `OneOrMore` assert that
      fails during the match ends the run. */
  function MatchOutcome(fixed: Pattern, argv: seq<string>, argvPatterns: seq<Pattern>): (r: Result<map<string, Value>>)
  {
    var m := Match(fixed, argvPatterns, []);
    if m.aborted then Err(AssertionFailure(OneChildMessage))
    else if m.matched && m.left == [] then Ok(NamedValues(Leaves(fixed) + m.collected))
    else if m.matched then Err(ArgumentError(UnexpectedPrefix + Joined(argv, ", ")))
    else Err(ArgumentError(NoMatchMessage))
  }

  /** What `docopt_parse` does once argv is parsed: `extras`, `fix()`, then
      the match. */
  function AfterArgv(pattern: Pattern, hash: Pattern -> int, argv: seq<string>, argvPatterns: seq<Pattern>,
                     help: bool, version: bool): (r: Result<map<string, Value>>)
    requires pattern.IsBranch()
  {
    var _ :- Extras(help, version, argvPatterns);
    MatchOutcome(FixedTree(pattern, hash), argv, argvPatterns)
  }

  /** `docopt_parse(doc, argv, help, version, options_first)`. */
  function DocoptResult(usageSections: seq<string>, defaults: seq<Pattern>, fromPattern: string -> seq<string>,
                        hash: Pattern -> int, argv: seq<string>, help: bool, version: bool, optionsFirst: bool)
    : (r: Result<map<string, Value>>)
    requires Grammar.AllOptions(defaults)
    ensures usageSections == [] ==> r == Err(LanguageError(UsageNotFound))
    ensures |usageSections| > 1 ==> r == Err(LanguageError(MoreThanOneUsage))
  {
    var tree := PatternTree(usageSections, defaults, fromPattern, hash);
    if tree.Err? then Err(AsLanguageError(tree.error))
    else
      var argvPatterns := Grammar.ParseArgv(argv, tree.value.1, optionsFirst);
      if argvPatterns.Err? then Err(AsArgumentError(argvPatterns.error))
      else AfterArgv(tree.value.0, hash, argv, argvPatterns.value.patterns, help, version)
  }

  /** The two loops that fill the result map: the leaves of the fixed
      pattern, then what the match collected. */
  method ResultMap(leaves: seq<Pattern>, collected: seq<Pattern>) returns (ret: map<string, Value>)
    ensures ret == NamedValues(leaves + collected)
  {
    ret := map[];
    for i := 0 to |leaves|
      invariant ret == NamedValues(leaves[..i])
    {
      assert leaves[..i + 1][..i] == leaves[..i];
      var p := leaves[i];
      if p.IsLeaf() {
        ret := ret[p.name := p.value];
      }
    }
    assert leaves + collected[..0] == leaves[..|leaves|];
    for j := 0 to |collected|
      invariant ret == NamedValues(leaves + collected[..j])
    {
      assert (leaves + collected[..j + 1])[..|leaves| + j] == leaves + collected[..j];
      var p := collected[j];
      if p.IsLeaf() {
        ret := ret[p.name := p.value];
      }
    }
    assert collected[..|collected|] == collected;
  }

  /** The match and the result of `docopt_parse`. */
  method MatchArgv(fixed: Pattern, argv: seq<string>, argvPatterns: seq<Pattern>) returns (r: Result<map<string, Value>>)
    ensures r == MatchOutcome(fixed, argv, argvPatterns)
  {
    var matched, left, collected, aborted := MatchPattern(fixed, argvPatterns, []);
    if aborted {
      return Err(AssertionFailure(OneChildMessage));
    }
    if matched && left == [] {
      var leaves := CollectLeaves(fixed, []);
      assert leaves == Leaves(fixed);
      var ret := ResultMap(leaves, collected);
      return Ok(ret);
    }
    if matched {
      var leftover := Join(argv, ", ");
      return Err(ArgumentError(UnexpectedPrefix + leftover));
    }
    return Err(ArgumentError(NoMatchMessage));
  }

  /** `docopt_parse` as the C++ writes it. */
  method DocoptParse(usageSections: seq<string>, defaults: seq<Pattern>, fromPattern: string -> seq<string>,
                     hash: Pattern -> int, argv: seq<string>, help: bool, version: bool, optionsFirst: bool)
    returns (r: Result<map<string, Value>>)
    requires Grammar.AllOptions(defaults)
    ensures r == DocoptResult(usageSections, defaults, fromPattern, hash, argv, help, version, optionsFirst)
  {
    var tree := CreatePatternTree(usageSections, defaults, fromPattern, hash);
    if tree.Err? {
      return Err(AsLanguageError(tree.error));
    }
    var pattern := tree.value.0;
    var options := new Parser.OptionList(tree.value.1);
    var argvPatterns := Parser.ParseArgv(argv, options, optionsFirst);
    if argvPatterns.Err? {
      return Err(AsArgumentError(argvPatterns.error));
    }
    r := FinishParse(pattern, hash, argv, argvPatterns.value, help, version);
  }

  /** The rest of `docopt_parse`: `extras`, `fix()` and the match. */
  method FinishParse(pattern: Pattern, hash: Pattern -> int, argv: seq<string>, argvPatterns: seq<Pattern>,
                     help: bool, version: bool) returns (r: Result<map<string, Value>>)
    requires pattern.IsBranch()
    ensures r == AfterArgv(pattern, hash, argv, argvPatterns, help, version)
  {
    var _ :- Extras(help, version, argvPatterns);
    var fixed := Expansion.Fix(pattern, hash);
    r := MatchArgv(fixed, argv, argvPatterns);
  }

  // ---------------------------------------------------------------------------
  // Properties of docopt_parse

  /** The match decides the outcome: success exactly when it matched and
      left nothing over; a match that left something over names the whole
      argv; a match that reached a malformed `OneOrMore` is the assertion
      failure, which a well-formed pattern never raises. */
  lemma MatchOutcomeCases(fixed: Pattern, argv: seq<string>, argvPatterns: seq<Pattern>)
    ensures var m := Match(fixed, argvPatterns, []);
      var r := MatchOutcome(fixed, argv, argvPatterns);
      && (r.Ok? <==> m.matched && m.left == [])
      && (r.Ok? ==> r.value == NamedValues(Leaves(fixed) + m.collected))
      && (m.matched && m.left != [] ==> r == Err(ArgumentError(UnexpectedPrefix + Joined(argv, ", "))))
      && (!m.matched && !m.aborted ==> r == Err(ArgumentError(NoMatchMessage)))
      && (m.aborted ==> r == Err(AssertionFailure(OneChildMessage)))
      && (WellFormed(fixed) ==> r != Err(AssertionFailure(OneChildMessage)))
  {
  }

  /** `docopt_parse` returns a map exactly when the usage gives one pattern
      tree, argv parses against its options, neither `--help` nor
      `--version` ends the run, and the fixed pattern matches all of argv. */
  lemma DocoptSucceedsExactly(usageSections: seq<string>, defaults: seq<Pattern>, fromPattern: string -> seq<string>,
                              hash: Pattern -> int, argv: seq<string>, help: bool, version: bool, optionsFirst: bool)
    requires Grammar.AllOptions(defaults)
    ensures var r := DocoptResult(usageSections, defaults, fromPattern, hash, argv, help, version, optionsFirst);
      var tree := PatternTree(usageSections, defaults, fromPattern, hash);
      r.Ok? <==>
        && tree.Ok?
        && var parsed := Grammar.ParseArgv(argv, tree.value.1, optionsFirst);
           && parsed.Ok?
           && Extras(help, version, parsed.value.patterns).Ok?
           && var fixed := FixedTree(tree.value.0, hash);
              && Match(fixed, parsed.value.patterns, []).matched
              && Match(fixed, parsed.value.patterns, []).left == []
    ensures var r := DocoptResult(usageSections, defaults, fromPattern, hash, argv, help, version, optionsFirst);
      var tree := PatternTree(usageSections, defaults, fromPattern, hash);
      r.Ok? ==>
        var parsed := Grammar.ParseArgv(argv, tree.value.1, optionsFirst).value;
        var fixed := FixedTree(tree.value.0, hash);
        r.value == NamedValues(Leaves(fixed) + Match(fixed, parsed.patterns, []).collected)
  {
    var tree := PatternTree(usageSections, defaults, fromPattern, hash);
    if tree.Ok? {
      var parsed := Grammar.ParseArgv(argv, tree.value.1, optionsFirst);
      if parsed.Ok? && Extras(help, version, parsed.value.patterns).Ok? {
        MatchOutcomeCases(FixedTree(tree.value.0, hash), argv, parsed.value.patterns);
      }
    }
  }

  /** The values of `a` then `b`, as the result map takes the leaves of the
      pattern then what the match collected: a name in `b` takes its last
      value there, any other name its last value in `a`. */
  lemma NamedValuesOverride(a: seq<Pattern>, b: seq<Pattern>, name: string)
    ensures forall k :: 0 <= k < |b| && LastNamed(b, k, name) ==>
      name in NamedValues(a + b) && NamedValues(a + b)[name] == b[k].value
    ensures (forall j :: 0 <= j < |b| ==> !(b[j].IsLeaf() && b[j].name == name)) ==>
      forall k :: 0 <= k < |a| && LastNamed(a, k, name) ==>
        name in NamedValues(a + b) && NamedValues(a + b)[name] == a[k].value
  {
    var all := a + b;
    NamedValuesLast(all, name);
    forall k | 0 <= k < |b| && LastNamed(b, k, name)
      ensures name in NamedValues(all) && NamedValues(all)[name] == b[k].value
    {
      assert all[|a| + k] == b[k];
      assert LastNamed(all, |a| + k, name) by {
        assert forall j :: |a| + k < j < |all| ==> all[j] == b[j - |a|];
      }
    }
    if forall j :: 0 <= j < |b| ==> !(b[j].IsLeaf() && b[j].name == name) {
      forall k | 0 <= k < |a| && LastNamed(a, k, name)
        ensures name in NamedValues(all) && NamedValues(all)[name] == a[k].value
      {
        assert all[k] == a[k];
        assert LastNamed(all, k, name) by {
          assert forall j :: k < j < |all| ==> (j < |a| ==> all[j] == a[j]) && (j >= |a| ==> all[j] == b[j - |a|]);
        }
      }
    }
  }
}
