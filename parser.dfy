/** The parser of docopt.cpp as the C++ writes it: functions that advance a
    `Tokens` cursor in place and append to the shared `options` vector, with
    `while` loops building the returned pattern lists.

    Each method is proved to agree with the function of module Grammar that
    specifies it: same patterns, same final cursor position, same option
    list, and the same error when one is thrown.
 */
module Parser {
  import opened Errors
  import opened DocoptUtil
  import opened DocoptValue
  import opened Patterns
  import opened TokenStream
  import Grammar

  /** The `std::vector<Option>& options` the parse functions share. */
  class OptionList {
    var items: seq<Pattern>

    constructor (items: seq<Pattern>)
      ensures this.items == items
    {
      this.items := items;
    }

    /** `options.emplace_back(...)`. */
    method Push(o: Pattern)
      modifies this
      ensures items == old(items) + [o]
    {
      items := items + [o];
    }
  }

  /** A method's outcome `r`, with the cursor left at `index` and the options
      at `items`, is the outcome `spec` of the function that specifies it. */
  predicate Agrees(r: Result<seq<Pattern>>, index: nat, items: seq<Pattern>, spec: Result<Grammar.Parsed>) {
    match spec
    case Ok(p) => r == Ok(p.patterns) && index == p.next && items == p.options
    case Err(e) => r == Err(e)
  }

  // ---------------------------------------------------------------------------
  // Looking options up

  /** One more option looked at by the exact-name loops of `parse_long`
      and `parse_short`. */
  lemma {:induction false} WithNameStep(options: seq<Pattern>, k: nat, form: Grammar.OptionForm, name: string, similar: seq<Pattern>)
    requires Grammar.AllOptions(options) && k < |options|
    requires similar + Grammar.WithName(options[k..], form, name) == Grammar.WithName(options, form, name)
    ensures (if Grammar.NameOf(options[k], form) == name then similar + [options[k]] else similar)
      + Grammar.WithName(options[k + 1..], form, name) == Grammar.WithName(options, form, name)
  {
    assert options[k..][1..] == options[k + 1..];
    var rest := Grammar.WithName(options[k + 1..], form, name);
    if Grammar.NameOf(options[k], form) == name {
      assert (similar + [options[k]]) + rest == similar + ([options[k]] + rest);
    } else {
      assert [] + rest == rest;
    }
  }

  /** One more option looked at by the second loop of `parse_long`. */
  lemma {:induction false} WithLongPrefixStep(options: seq<Pattern>, k: nat, prefix: string, similar: seq<Pattern>)
    requires Grammar.AllOptions(options) && k < |options|
    requires similar + Grammar.WithLongPrefix(options[k..], prefix) == Grammar.WithLongPrefix(options, prefix)
    ensures (if options[k].longOpt != [] && StartsWith(options[k].longOpt, prefix) then similar + [options[k]] else similar)
      + Grammar.WithLongPrefix(options[k + 1..], prefix) == Grammar.WithLongPrefix(options, prefix)
  {
    assert options[k..][1..] == options[k + 1..];
    var rest := Grammar.WithLongPrefix(options[k + 1..], prefix);
    if options[k].longOpt != [] && StartsWith(options[k].longOpt, prefix) {
      assert (similar + [options[k]]) + rest == similar + ([options[k]] + rest);
    } else {
      assert [] + rest == rest;
    }
  }

  /** The first loop of `parse_long`: the options named exactly `longOpt`. */
  method ExactLong(options: seq<Pattern>, longOpt: string) returns (similar: seq<Pattern>)
    requires Grammar.AllOptions(options)
    ensures similar == Grammar.WithName(options, Grammar.LongForm, longOpt)
  {
    similar := [];
    for k := 0 to |options|
      invariant similar + Grammar.WithName(options[k..], Grammar.LongForm, longOpt) == Grammar.WithName(options, Grammar.LongForm, longOpt)
    {
      WithNameStep(options, k, Grammar.LongForm, longOpt, similar);
      if options[k].longOpt == longOpt {
        similar := similar + [options[k]];
      }
    }
    assert options[|options|..] == [];
  }

  /** The second loop of `parse_long`: the options `longOpt` is a prefix of. */
  method PrefixLong(options: seq<Pattern>, longOpt: string) returns (similar: seq<Pattern>)
    requires Grammar.AllOptions(options)
    ensures similar == Grammar.WithLongPrefix(options, longOpt)
  {
    similar := [];
    for k := 0 to |options|
      invariant similar + Grammar.WithLongPrefix(options[k..], longOpt) == Grammar.WithLongPrefix(options, longOpt)
    {
      WithLongPrefixStep(options, k, longOpt, similar);
      if options[k].longOpt == [] {
        continue;
      }
      if StartsWith(options[k].longOpt, longOpt) {
        similar := similar + [options[k]];
      }
    }
    assert options[|options|..] == [];
  }

  /** The two loops of `parse_long` that collect the `similar` options. */
  method SimilarLong(options: seq<Pattern>, longOpt: string, isParsingArgv: bool) returns (similar: seq<Pattern>)
    requires Grammar.AllOptions(options)
    ensures similar == Grammar.SimilarLong(options, longOpt, isParsingArgv)
  {
    similar := ExactLong(options, longOpt);
    if isParsingArgv && similar == [] {
      similar := PrefixLong(options, longOpt);
    }
  }

  /** The loop of `parse_short` that collects the `similar` options. */
  method SimilarShort(options: seq<Pattern>, shortOpt: string) returns (similar: seq<Pattern>)
    requires Grammar.AllOptions(options)
    ensures similar == Grammar.WithName(options, Grammar.ShortForm, shortOpt)
  {
    similar := [];
    for k := 0 to |options|
      invariant similar + Grammar.WithName(options[k..], Grammar.ShortForm, shortOpt) == Grammar.WithName(options, Grammar.ShortForm, shortOpt)
    {
      WithNameStep(options, k, Grammar.ShortForm, shortOpt, similar);
      if options[k].shortOpt == shortOpt {
        similar := similar + [options[k]];
      }
    }
    assert options[|options|..] == [];
  }

  // ---------------------------------------------------------------------------
  // parse_long and parse_short

  /** `parse_long(tokens, options)`. */
  method ParseLong(tokens: Tokens, options: OptionList) returns (r: Result<seq<Pattern>>)
    requires tokens.index < |tokens.tokens| && StartsWith(tokens.tokens[tokens.index], "--")
    requires Grammar.AllOptions(options.items)
    modifies tokens, options
    ensures tokens.tokens == old(tokens.tokens)
    ensures Agrees(r, tokens.index, options.items,
                   Grammar.ParseLong(tokens.tokens, tokens.isParsingArgv, old(tokens.index), old(options.items)))
  {
    var popped := tokens.Pop();
    var (longOpt, equal, rest) := Partition(popped.value, "=");
    var val := if equal == [] then Default() else FromString(rest);
    var similar := SimilarLong(options.items, longOpt, tokens.isParsingArgv);
    if |similar| > 1 {
      return Err(OptionError(Grammar.NotUniqueMessage(longOpt, similar)));
    } else if similar == [] {
      var argcount := if equal == [] then 0 else 1;
      options.Push(MakeOption("", longOpt, argcount, FromBool(false)));
      var o := options.items[|options.items| - 1];
      return Ok([Grammar.Given(o, tokens.isParsingArgv, if argcount != 0 then val else FromBool(true))]);
    }
    var o := similar[0];
    if o.argcount == 0 {
      if Truthy(val) {
        return Err(OptionError(o.longOpt + " must not have an argument"));
      }
    } else if !Truthy(val) {
      var token := tokens.Current();
      if token == [] || token == "--" {
        return Err(OptionError(o.longOpt + " requires an argument"));
      }
      var next := tokens.Pop();
      val := FromString(next.value);
    }
    return Ok([Grammar.Given(o, tokens.isParsingArgv, val)]);
  }

  /** One round of `parse_short`'s loop: the option for the character at
      `j`, with `j2` where the next round starts. */
  method ShortOption(tokens: Tokens, options: OptionList, token: string, j: nat, ghost acc: seq<Pattern>)
    returns (r: Result<Pattern>, j2: nat)
    requires 1 <= j < |token| && tokens.index <= |tokens.tokens| && Grammar.AllOptions(options.items)
    modifies tokens, options
    ensures tokens.tokens == old(tokens.tokens) && tokens.index <= |tokens.tokens| && Grammar.AllOptions(options.items)
    ensures r.Ok? ==> j < j2 <= |token|
    ensures Grammar.ShortsFrom(tokens.tokens, tokens.isParsingArgv, token, j, old(tokens.index), old(options.items), acc)
      == if r.Err? then Err(r.error)
         else Grammar.ShortsFrom(tokens.tokens, tokens.isParsingArgv, token, j2, tokens.index, options.items, acc + [r.value])
  {
    var shortOpt := ['-', token[j]];
    j2 := j + 1;
    var similar := SimilarShort(options.items, shortOpt);
    if |similar| > 1 {
      return Err(OptionError(Grammar.AmbiguousMessage(shortOpt, |similar|))), j2;
    } else if similar == [] {
      options.Push(MakeOption(shortOpt, "", 0, FromBool(false)));
      var o := options.items[|options.items| - 1];
      return Ok(Grammar.Given(o, tokens.isParsingArgv, FromBool(true))), j2;
    }
    var o := similar[0];
    var val := Default();
    if o.argcount != 0 {
      if j2 == |token| {
        var t := tokens.Current();
        if t == [] || t == "--" {
          return Err(OptionError(shortOpt + " requires an argument")), j2;
        }
        var next := tokens.Pop();
        val := FromString(next.value);
      } else {
        val := FromString(token[j2..]);
        j2 := |token|;
      }
    }
    return Ok(Grammar.Given(o, tokens.isParsingArgv, val)), j2;
  }

  /** `parse_short(tokens, options)`: the loop walks the characters of the
      token after its dash. */
  method ParseShort(tokens: Tokens, options: OptionList) returns (r: Result<seq<Pattern>>)
    requires tokens.index < |tokens.tokens| && StartsWith(tokens.tokens[tokens.index], "-")
    requires Grammar.AllOptions(options.items)
    modifies tokens, options
    ensures tokens.tokens == old(tokens.tokens)
    ensures Agrees(r, tokens.index, options.items,
                   Grammar.ParseShort(tokens.tokens, tokens.isParsingArgv, old(tokens.index), old(options.items)))
  {
    ghost var spec := Grammar.ParseShort(tokens.tokens, tokens.isParsingArgv, tokens.index, options.items);
    var popped := tokens.Pop();
    var token := popped.value;
    var j := 1;
    var ret := [];
    while j != |token|
      invariant 1 <= j <= |token| && tokens.index <= |tokens.tokens|
      invariant tokens.tokens == old(tokens.tokens) && Grammar.AllOptions(options.items)
      invariant Grammar.ShortsFrom(tokens.tokens, tokens.isParsingArgv, token, j, tokens.index, options.items, ret) == spec
      decreases |token| - j
    {
      var o;
      o, j := ShortOption(tokens, options, token, j, ret);
      if o.Err? {
        return Err(o.error);
      }
      ret := ret + [o.value];
    }
    return Ok(ret);
  }

  // ---------------------------------------------------------------------------
  // parse_atom, parse_seq and parse_expr

  /** `parse_atom(tokens, options)`. */
  method ParseAtom(tokens: Tokens, options: OptionList) returns (r: Result<seq<Pattern>>)
    requires tokens.index <= |tokens.tokens| && Grammar.AllOptions(options.items)
    modifies tokens, options
    decreases |tokens.tokens| - tokens.index, 0
    ensures tokens.tokens == old(tokens.tokens)
    ensures Agrees(r, tokens.index, options.items,
                   Grammar.ParseAtom(tokens.tokens, tokens.isParsingArgv, old(tokens.index), old(options.items)))
  {
    var token := tokens.Current();
    if token == "[" || token == "(" {
      var open := tokens.Pop();
      r := ParseGroup(tokens, options);
    } else if token == "options" {
      var word := tokens.Pop();
      return Ok([OptionsShortcut([])]);
    } else if StartsWith(token, "--") && token != "--" {
      r := ParseLong(tokens, options);
    } else if StartsWith(token, "-") && token != "-" && token != "--" {
      r := ParseShort(tokens, options);
    } else if Grammar.IsArgumentSpec(token) {
      var name := tokens.Pop();
      return Ok([MakeArgument(name.value)]);
    } else {
      var name :- tokens.Pop();
      return Ok([MakeCommand(name)]);
    }
  }

  /** The rest of `parse_atom` after an opening `[` or `(`: the expression,
      then the matching closing bracket. */
  method ParseGroup(tokens: Tokens, options: OptionList) returns (r: Result<seq<Pattern>>)
    requires 0 < tokens.index <= |tokens.tokens| && Grammar.AllOptions(options.items)
    requires tokens.tokens[tokens.index - 1] == "[" || tokens.tokens[tokens.index - 1] == "("
    modifies tokens, options
    decreases |tokens.tokens| - tokens.index, 4
    ensures tokens.tokens == old(tokens.tokens)
    ensures Agrees(r, tokens.index, options.items,
                   Grammar.ParseAtom(tokens.tokens, tokens.isParsingArgv, old(tokens.index) - 1, old(options.items)))
  {
    var opening := tokens.tokens[tokens.index - 1];
    var expr :- ParseExpr(tokens, options);
    var trailing :- tokens.Pop();
    if opening == "[" {
      if trailing != "]" {
        return Err(LanguageError("Mismatched '['"));
      }
      return Ok([Optional(expr)]);
    } else {
      if trailing != ")" {
        return Err(LanguageError("Mismatched '('"));
      }
      return Ok([Required(expr)]);
    }
  }

  /** `parse_seq(tokens, options)`. */
  method ParseSeq(tokens: Tokens, options: OptionList) returns (r: Result<seq<Pattern>>)
    requires tokens.index <= |tokens.tokens| && Grammar.AllOptions(options.items)
    modifies tokens, options
    decreases |tokens.tokens| - tokens.index, 2
    ensures tokens.tokens == old(tokens.tokens)
    ensures Agrees(r, tokens.index, options.items,
                   Grammar.ParseSeq(tokens.tokens, tokens.isParsingArgv, old(tokens.index), old(options.items)))
  {
    ghost var spec := Grammar.ParseSeq(tokens.tokens, tokens.isParsingArgv, tokens.index, options.items);
    var ret := [];
    while tokens.HasMore()
      invariant old(tokens.index) <= tokens.index <= |tokens.tokens|
      invariant tokens.tokens == old(tokens.tokens) && Grammar.AllOptions(options.items)
      invariant Grammar.SeqFrom(tokens.tokens, tokens.isParsingArgv, tokens.index, options.items, ret) == spec
      decreases |tokens.tokens| - tokens.index
    {
      var token := tokens.Current();
      if token == "]" || token == ")" || token == "|" {
        break;
      }
      var atom :- SeqRound(tokens, options, ret);
      ret := ret + atom;
    }
    return Ok(ret);
  }

  /** One round of `parse_seq`'s loop: an atom, wrapped in `OneOrMore` when
      `...` follows it. */
  method SeqRound(tokens: Tokens, options: OptionList, ghost acc: seq<Pattern>) returns (r: Result<seq<Pattern>>)
    requires tokens.index < |tokens.tokens| && Grammar.AllOptions(options.items)
    requires tokens.tokens[tokens.index] != "]" && tokens.tokens[tokens.index] != ")" && tokens.tokens[tokens.index] != "|"
    modifies tokens, options
    decreases |tokens.tokens| - tokens.index, 1
    ensures tokens.tokens == old(tokens.tokens)
    ensures r.Ok? ==> old(tokens.index) < tokens.index <= |tokens.tokens| && Grammar.AllOptions(options.items)
    ensures Grammar.SeqFrom(tokens.tokens, tokens.isParsingArgv, old(tokens.index), old(options.items), acc)
      == if r.Err? then Err(r.error)
         else Grammar.SeqFrom(tokens.tokens, tokens.isParsingArgv, tokens.index, options.items, acc + r.value)
  {
    ghost var start := tokens.index;
    ghost var items := options.items;
    ghost var spec := Grammar.ParseAtom(tokens.tokens, tokens.isParsingArgv, start, items);
    Grammar.SeqFromUnfold(tokens.tokens, tokens.isParsingArgv, start, items, acc);
    var parsed := ParseAtom(tokens, options);
    if parsed.Err? {
      assert spec == Err(parsed.error);
      return Err(parsed.error);
    }
    assert spec == Ok(Grammar.Parsed(parsed.value, tokens.index, options.items));
    r := WithDots(tokens, parsed.value);
  }

  /** The `...` test of `parse_seq`: an atom followed by `...` becomes one
      OneOrMore of its patterns and the `...` is popped; any other atom is
      kept as it is. */
  method WithDots(tokens: Tokens, atom: seq<Pattern>) returns (r: Result<seq<Pattern>>)
    modifies tokens
    ensures tokens.tokens == old(tokens.tokens)
    ensures old(tokens.Current()) == "..." ==> tokens.index == old(tokens.index) + 1 && r == Ok([OneOrMore(atom)])
    ensures old(tokens.Current()) != "..." ==> tokens.index == old(tokens.index) && r == Ok(atom)
  {
    if tokens.Current() == "..." {
      var dots := tokens.Pop();
      return Ok([OneOrMore(atom)]);
    }
    return Ok(atom);
  }

  /** `parse_expr(tokens, options)`. */
  method ParseExpr(tokens: Tokens, options: OptionList) returns (r: Result<seq<Pattern>>)
    requires tokens.index <= |tokens.tokens| && Grammar.AllOptions(options.items)
    modifies tokens, options
    decreases |tokens.tokens| - tokens.index, 3
    ensures tokens.tokens == old(tokens.tokens)
    ensures Agrees(r, tokens.index, options.items,
                   Grammar.ParseExpr(tokens.tokens, tokens.isParsingArgv, old(tokens.index), old(options.items)))
  {
    var s :- ParseSeq(tokens, options);
    if tokens.Current() != "|" {
      return Ok(s);
    }
    r := ParseAlternatives(tokens, options, [Grammar.CollapseToRequired(s)]);
  }

  /** The loop of `parse_expr` over the `|`-separated sequences after the
      first: each one joins `alts` as a Required, and the result is one
      Either of them. */
  method ParseAlternatives(tokens: Tokens, options: OptionList, alts: seq<Pattern>) returns (r: Result<seq<Pattern>>)
    requires tokens.index <= |tokens.tokens| && Grammar.AllOptions(options.items)
    modifies tokens, options
    decreases |tokens.tokens| - tokens.index, 2
    ensures tokens.tokens == old(tokens.tokens)
    ensures Agrees(r, tokens.index, options.items,
                   Grammar.AlternativesFrom(tokens.tokens, tokens.isParsingArgv, old(tokens.index), old(options.items), alts))
  {
    ghost var spec := Grammar.AlternativesFrom(tokens.tokens, tokens.isParsingArgv, tokens.index, options.items, alts);
    var ret := alts;
    while tokens.Current() == "|"
      invariant old(tokens.index) <= tokens.index <= |tokens.tokens|
      invariant tokens.tokens == old(tokens.tokens) && Grammar.AllOptions(options.items)
      invariant Grammar.AlternativesFrom(tokens.tokens, tokens.isParsingArgv, tokens.index, options.items, ret) == spec
      decreases |tokens.tokens| - tokens.index
    {
      var bar := tokens.Pop();
      var s :- ParseSeq(tokens, options);
      ret := ret + [Grammar.CollapseToRequired(s)];
    }
    return Ok([Grammar.CollapseToEither(ret)]);
  }

  /** `parse_pattern(source, options)`, given the tokens `Tokens::from_pattern`
      cuts the source into. */
  method ParsePattern(source: seq<string>, options: OptionList) returns (r: Result<Pattern>)
    requires Grammar.AllOptions(options.items)
    modifies options
    ensures match Grammar.ParsePattern(source, old(options.items))
            case Ok(p) => r == Ok(p.0) && options.items == p.1
            case Err(e) => r == Err(e)
  {
    var tokens := new Tokens(source, false);
    var result :- ParseExpr(tokens, options);
    if tokens.HasMore() {
      return Err(LanguageError("Unexpected ending: '" + tokens.TheRest() + "'"));
    }
    if |result| != 1 {
      return Err(AssertionFailure("top level is always one big"));
    }
    return Ok(Required(result));
  }

  // ---------------------------------------------------------------------------
  // formal_usage and parse_argv

  /** `formal_usage(section)`. */
  method FormalUsage(section: string) returns (ret: string)
    ensures ret == Grammar.FormalUsage(section)
  {
    ret := "(";
    var i := Grammar.UsageStart(section);
    var parts := Split(section, i);
    if parts == [] {
      ret := ret + " )";
      return;
    }
    for ii := 1 to |parts|
      invariant ret + Grammar.FormalFrom(parts, ii) == "(" + Grammar.FormalFrom(parts, 1)
    {
      if parts[ii] == parts[0] {
        ret := ret + " ) | (";
      } else {
        ret := ret + [' '];
        ret := ret + parts[ii];
      }
    }
    ret := ret + " )";
  }

  /** The inner loops of `parse_argv`: every remaining token becomes an
      argument without a name. */
  method RestAsArguments(tokens: Tokens, acc: seq<Pattern>) returns (ret: seq<Pattern>)
    requires tokens.index <= |tokens.tokens|
    modifies tokens
    ensures tokens.tokens == old(tokens.tokens) && tokens.index == |tokens.tokens|
    ensures ret == acc + Grammar.ArgumentsOf(tokens.tokens[old(tokens.index)..])
  {
    ret := acc;
    ghost var start := tokens.index;
    while tokens.HasMore()
      invariant start <= tokens.index <= |tokens.tokens| && tokens.tokens == old(tokens.tokens)
      invariant ret == acc + Grammar.ArgumentsOf(tokens.tokens[start..tokens.index])
      decreases |tokens.tokens| - tokens.index
    {
      ArgumentsSnoc(tokens.tokens, start, tokens.index, acc, ret);
      var token := tokens.Pop();
      ret := ret + [Argument("", FromString(token.value))];
    }
  }

  /** One more token, one more argument at the end. */
  lemma {:induction false} ArgumentsSnoc(ts: seq<string>, lo: nat, hi: nat, acc: seq<Pattern>, ret: seq<Pattern>)
    requires lo <= hi < |ts| && ret == acc + Grammar.ArgumentsOf(ts[lo..hi])
    ensures ret + [Argument("", FromString(ts[hi]))] == acc + Grammar.ArgumentsOf(ts[lo..hi + 1])
  {
    assert ts[lo..hi + 1] == ts[lo..hi] + [ts[hi]];
    ArgumentsOfSnoc(ts[lo..hi], ts[hi]);
  }

  lemma {:induction false} ArgumentsOfSnoc(ts: seq<string>, t: string)
    ensures Grammar.ArgumentsOf(ts + [t]) == Grammar.ArgumentsOf(ts) + [Argument("", FromString(t))]
  {
    var a := Grammar.ArgumentsOf(ts);
    var b := Grammar.ArgumentsOf(ts + [t]);
    forall k | 0 <= k < |b| ensures b[k] == (a + [Argument("", FromString(t))])[k] {
      if k < |a| {
        assert (ts + [t])[k] == ts[k];
      }
    }
  }

  /** `parse_argv(Tokens(argv), options, options_first)`. */
  method ParseArgv(argv: seq<string>, options: OptionList, optionsFirst: bool) returns (r: Result<seq<Pattern>>)
    requires Grammar.AllOptions(options.items)
    modifies options
    ensures match Grammar.ParseArgv(argv, old(options.items), optionsFirst)
            case Ok(p) => r == Ok(p.patterns) && options.items == p.options
            case Err(e) => r == Err(e)
  {
    ghost var spec := Grammar.ParseArgv(argv, options.items, optionsFirst);
    var tokens := new Tokens(argv, true);
    var ret := [];
    while tokens.HasMore()
      invariant tokens.tokens == argv && tokens.isParsingArgv && tokens.index <= |argv|
      invariant Grammar.AllOptions(options.items)
      invariant Grammar.ArgvFrom(argv, tokens.index, options.items, optionsFirst, ret) == spec
      decreases |argv| - tokens.index
    {
      ret :- ArgvRound(tokens, options, optionsFirst, ret);
    }
    return Ok(ret);
  }

  /** One turn of the loop of `parse_argv`: the patterns for the current
      token (and, after `--` or with `options_first`, all tokens left). */
  method ArgvRound(tokens: Tokens, options: OptionList, optionsFirst: bool, ret: seq<Pattern>)
    returns (r: Result<seq<Pattern>>)
    requires tokens.isParsingArgv && tokens.index < |tokens.tokens|
    requires Grammar.AllOptions(options.items)
    modifies tokens, options
    ensures tokens.tokens == old(tokens.tokens)
    ensures var before := Grammar.ArgvFrom(tokens.tokens, old(tokens.index), old(options.items), optionsFirst, ret);
      match r
      case Ok(ret') =>
        old(tokens.index) < tokens.index <= |tokens.tokens| && Grammar.AllOptions(options.items)
        && Grammar.ArgvFrom(tokens.tokens, tokens.index, options.items, optionsFirst, ret') == before
      case Err(e) => before == Err(e)
  {
    ghost var i, items := tokens.index, options.items;
    ghost var before := Grammar.ArgvFrom(tokens.tokens, i, items, optionsFirst, ret);
    var token := tokens.Current();
    if token == "--" || (optionsFirst && !(StartsWith(token, "--") || (Grammar.DashFirst(token) && token != "-"))) {
      Grammar.ArgvRestAreArguments(tokens.tokens, i, items, optionsFirst, ret);
      var ret' := RestAsArguments(tokens, ret);
      assert Grammar.ArgvFrom(tokens.tokens, tokens.index, options.items, optionsFirst, ret') == before;
      r := Ok(ret');
    } else if StartsWith(token, "--") || (Grammar.DashFirst(token) && token != "-") {
      r := ArgvOptionRound(tokens, options, optionsFirst, ret);
    } else {
      Grammar.ArgvPositional(tokens.tokens, i, items, ret);
      var arg := tokens.Pop();
      assert Grammar.ArgvFrom(tokens.tokens, tokens.index, options.items, optionsFirst, ret + [Argument("", FromString(arg.value))]) == before;
      r := Ok(ret + [Argument("", FromString(arg.value))]);
    }
  }

  /** The round of `parse_argv` for an option token. */
  method ArgvOptionRound(tokens: Tokens, options: OptionList, optionsFirst: bool, ret: seq<Pattern>)
    returns (r: Result<seq<Pattern>>)
    requires tokens.isParsingArgv && tokens.index < |tokens.tokens|
    requires var token := tokens.tokens[tokens.index];
      token != "--" && Grammar.DashFirst(token) && token != "-"
    requires Grammar.AllOptions(options.items)
    modifies tokens, options
    ensures tokens.tokens == old(tokens.tokens)
    ensures var before := Grammar.ArgvFrom(tokens.tokens, old(tokens.index), old(options.items), optionsFirst, ret);
      match r
      case Ok(ret') =>
        old(tokens.index) < tokens.index <= |tokens.tokens| && Grammar.AllOptions(options.items)
        && Grammar.ArgvFrom(tokens.tokens, tokens.index, options.items, optionsFirst, ret') == before
      case Err(e) => before == Err(e)
  {
    ghost var i, items := tokens.index, options.items;
    ghost var before := Grammar.ArgvFrom(tokens.tokens, i, items, optionsFirst, ret);
    Grammar.ArgvOptionStep(tokens.tokens, i, items, optionsFirst, ret);
    var parsed := ParseOptionToken(tokens, options);
    if parsed.Err? {
      assert before == Err(parsed.error);
      return Err(parsed.error);
    }
    assert Grammar.ArgvFrom(tokens.tokens, tokens.index, options.items, optionsFirst, ret + parsed.value) == before;
    r := Ok(ret + parsed.value);
  }

  /** An option token of argv: `parse_long` for `--…`, `parse_short` otherwise. */
  method ParseOptionToken(tokens: Tokens, options: OptionList) returns (r: Result<seq<Pattern>>)
    requires tokens.index < |tokens.tokens| && StartsWith(tokens.tokens[tokens.index], "-")
    requires Grammar.AllOptions(options.items)
    modifies tokens, options
    ensures tokens.tokens == old(tokens.tokens)
    ensures Agrees(r, tokens.index, options.items,
                   if StartsWith(tokens.tokens[old(tokens.index)], "--")
                   then Grammar.ParseLong(tokens.tokens, tokens.isParsingArgv, old(tokens.index), old(options.items))
                   else Grammar.ParseShort(tokens.tokens, tokens.isParsingArgv, old(tokens.index), old(options.items)))
  {
    if StartsWith(tokens.Current(), "--") {
      r := ParseLong(tokens, options);
    } else {
      r := ParseShort(tokens, options);
    }
  }

  // ---------------------------------------------------------------------------
  // Option::parse

  /** The body of the loop of `Option::parse` for the match at `q`. */
  method MatchRound(s: string, q: nat, end: nat, shortOpt: string, longOpt: string, argcount: int)
    returns (shortOpt': string, longOpt': string, argcount': int, wordEnd: nat)
    requires q <= end <= |s|
    ensures wordEnd == Grammar.MatchEnd(s, q, end)
    ensures Grammar.OptionParts(shortOpt', longOpt', argcount')
      == Grammar.MatchParts(s, q, end, Grammar.OptionParts(shortOpt, longOpt, argcount))
  {
    shortOpt', longOpt', argcount' := shortOpt, longOpt, argcount;
    var dashes := Grammar.Dashes(s, q, end);
    wordEnd := Grammar.MatchEnd(s, q, end);
    var word := s[q + dashes..wordEnd];
    if dashes == 1 {
      shortOpt' := "-" + word;
    } else if dashes == 2 {
      longOpt' := "--" + word;
    } else if |word| > 0 {
      argcount' := 1;
    }
  }

  /** The loop of `Option::parse` over the matches of
      `(--|-)?(.*?)([,= ]|$)` before `optionsEnd`. */
  method OptionWords(description: string, optionsEnd: nat) returns (shortOpt: string, longOpt: string, argcount: int)
    requires optionsEnd <= |description|
    ensures Grammar.OptionParts(shortOpt, longOpt, argcount)
      == Grammar.OptionMatches(description, 0, optionsEnd, Grammar.OptionParts("", "", 0))
  {
    shortOpt, longOpt := "", "";
    argcount := 0;
    ghost var spec := Grammar.OptionMatches(description, 0, optionsEnd, Grammar.OptionParts("", "", 0));
    var p := 0;
    var done := false;
    while !done
      invariant p <= optionsEnd
      invariant !done ==> Grammar.OptionMatches(description, p, optionsEnd, Grammar.OptionParts(shortOpt, longOpt, argcount)) == spec
      invariant done ==> Grammar.OptionParts(shortOpt, longOpt, argcount) == spec
      decreases optionsEnd - p, !done
    {
      shortOpt, longOpt, argcount, p, done := OptionWordsRound(description, p, optionsEnd, shortOpt, longOpt, argcount);
    }
  }

  /** One turn of the loop of `Option::parse` from position `p`: the next
      match, if any, and where the search goes on. */
  method OptionWordsRound(s: string, p: nat, end: nat, shortOpt: string, longOpt: string, argcount: int)
    returns (shortOpt': string, longOpt': string, argcount': int, p': nat, done: bool)
    requires p <= end <= |s|
    ensures p <= p' <= end && (!done ==> p < p')
    ensures var before := Grammar.OptionMatches(s, p, end, Grammar.OptionParts(shortOpt, longOpt, argcount));
      if done then Grammar.OptionParts(shortOpt', longOpt', argcount') == before
      else Grammar.OptionMatches(s, p', end, Grammar.OptionParts(shortOpt', longOpt', argcount')) == before
  {
    p' := p;
    var m := Grammar.NextMatch(s, p, end);
    if m.None? {
      Grammar.OptionMatchesDone(s, p, end, Grammar.OptionParts(shortOpt, longOpt, argcount));
      shortOpt', longOpt', argcount' := shortOpt, longOpt, argcount;
      done := true;
    } else {
      Grammar.OptionMatchesStep(s, p, end, Grammar.OptionParts(shortOpt, longOpt, argcount));
      var wordEnd;
      shortOpt', longOpt', argcount', wordEnd := MatchRound(s, m.value, end, shortOpt, longOpt, argcount);
      if wordEnd == end {
        done := true;
      } else {
        p' := wordEnd + 1;
        done := false;
      }
    }
  }

  /** `Option::parse(option_description)`: the words before the first double
      space name the option, then a `[default: ...]` is looked for when the
      option takes an argument. */
  method ParseOption(description: string) returns (o: Pattern)
    ensures o == Grammar.ParseOption(description)
  {
    var val := FromBool(false);
    var optionsEnd := Grammar.OptionsEnd(description);
    var shortOpt, longOpt, argcount := OptionWords(description, optionsEnd);
    if argcount != 0 {
      match Grammar.DefaultFrom(description, optionsEnd)
      case Some(v) =>
        val := FromString(v);
      case None =>
    }
    o := MakeOption(shortOpt, longOpt, argcount, val);
  }
}
