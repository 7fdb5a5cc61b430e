/** The usage grammar and the argv grammar of docopt.cpp, on values.

    Each parsing function takes the token list, whether the tokens come from
    argv, the index of the current token and the option list, and returns the
    patterns it built, the index after the tokens it consumed and the option
    list with the options it added. The imperative methods of module Parser
    are proved equal to these functions.

      long  ::= '--' chars [ ( ' ' | '=' ) chars ] ;
      shorts ::= '-' ( chars )* [ [ ' ' ] chars ] ;
      atom  ::= '(' expr ')' | '[' expr ']' | 'options' | long | shorts | argument | command ;
      seq   ::= ( atom [ '...' ] )* ;
      expr  ::= seq ( '|' seq )* ;
 */
module Grammar {
  import opened Errors
  import opened DocoptUtil
  import opened DocoptValue
  import opened Patterns
  import opened TokenStream
  import ValueOutput

  /** The C++ `std::vector<Option>`: every element is an Option. */
  predicate AllOptions(options: seq<Pattern>) {
    forall k :: 0 <= k < |options| ==> options[k].Option?
  }

  /** What a parsing function hands back. */
  datatype Parsed = Parsed(patterns: seq<Pattern>, next: nat, options: seq<Pattern>)

  // ---------------------------------------------------------------------------
  // Tokens

  /** `::isupper` in the C locale. */
  predicate IsUpper(c: char) {
    'A' <= c <= 'Z'
  }

  /** `is_argument_spec`: `<name>` or an all upper-case word. */
  function IsArgumentSpec(token: string): (r: bool)
    ensures r <==>
      token != [] && ((token[0] == '<' && token[|token| - 1] == '>') || forall k :: 0 <= k < |token| ==> IsUpper(token[k]))
  {
    if token == [] then false
    else if token[0] == '<' && token[|token| - 1] == '>' then true
    else forall k :: 0 <= k < |token| ==> IsUpper(token[k])
  }

  /** `token[0] == '-'`, where `token[0]` of the empty string is the null character. */
  predicate DashFirst(token: string) {
    token != [] && token[0] == '-'
  }

  // ---------------------------------------------------------------------------
  // Looking options up

  /** Which of its two names an option is looked up by. */
  datatype OptionForm = LongForm | ShortForm

  function NameOf(o: Pattern, form: OptionForm): string
    requires o.Option?
  {
    if form == LongForm then o.longOpt else o.shortOpt
  }

  /** The options whose `form` name is `name`, in list order: `parse_long`
      looks its token up by the long form, `parse_short` each character by
      the short form. */
  function WithName(options: seq<Pattern>, form: OptionForm, name: string): (r: seq<Pattern>)
    requires AllOptions(options)
    ensures AllOptions(r) && |r| <= |options|
  {
    if options == [] then []
    else (if NameOf(options[0], form) == name then [options[0]] else []) + WithName(options[1..], form, name)
  }

  /** The options with a long option that starts with `prefix`, in list order. */
  function WithLongPrefix(options: seq<Pattern>, prefix: string): (r: seq<Pattern>)
    requires AllOptions(options)
    ensures AllOptions(r) && |r| <= |options|
  {
    if options == [] then []
    else
      var o := options[0];
      (if o.longOpt != [] && StartsWith(o.longOpt, prefix) then [o] else []) + WithLongPrefix(options[1..], prefix)
  }

  /** The options found are exactly those of the list with that name. */
  lemma {:induction false} WithNameMembers(options: seq<Pattern>, form: OptionForm, name: string)
    requires AllOptions(options)
    ensures forall o :: o in WithName(options, form, name) <==> o in options && NameOf(o, form) == name
  {
    if options != [] {
      WithNameMembers(options[1..], form, name);
      assert forall o :: o in options <==> o == options[0] || o in options[1..];
    }
  }

  /** The options found are exactly those whose long option starts with `prefix`. */
  lemma {:induction false} WithLongPrefixMembers(options: seq<Pattern>, prefix: string)
    requires AllOptions(options)
    ensures forall o :: o in WithLongPrefix(options, prefix) <==> o in options && o.longOpt != [] && StartsWith(o.longOpt, prefix)
  {
    if options != [] {
      WithLongPrefixMembers(options[1..], prefix);
      assert forall o :: o in options <==> o == options[0] || o in options[1..];
    }
  }

  /** `longOptions(begin, end)`. */
  function LongOptions(options: seq<Pattern>): (r: seq<string>)
    requires AllOptions(options)
    ensures |r| == |options| && forall k :: 0 <= k < |r| ==> r[k] == options[k].longOpt
  {
    if options == [] then [] else [options[0].longOpt] + LongOptions(options[1..])
  }

  /** The options `parse_long` considers for `longOpt`: the exact matches, or
      in argv and without an exact match, every option it is a prefix of. */
  function SimilarLong(options: seq<Pattern>, longOpt: string, isParsingArgv: bool): (r: seq<Pattern>)
    requires AllOptions(options)
    ensures AllOptions(r)
  {
    var exact := WithName(options, LongForm, longOpt);
    if isParsingArgv && exact == [] then WithLongPrefix(options, longOpt) else exact
  }

  /** An option as it enters the pattern list: in argv it gets the value it
      was given, or `true`; in the usage pattern it keeps its own. */
  function Given(o: Pattern, isParsingArgv: bool, val: Value): (r: Pattern)
    requires o.Option?
    ensures r.Option? && r.name == o.name && r.shortOpt == o.shortOpt && r.longOpt == o.longOpt
    ensures r.argcount == o.argcount
    ensures !isParsingArgv ==> r == o
    ensures isParsingArgv ==> r.value == (if Truthy(val) then val else Bool(true))
  {
    if isParsingArgv then WithValue(o, if Truthy(val) then val else FromBool(true)) else o
  }

  // ---------------------------------------------------------------------------
  // parse_long

  function NotUniqueMessage(longOpt: string, similar: seq<Pattern>): string
    requires AllOptions(similar)
  {
    "'" + longOpt + "' is not a unique prefix: " + Joined(LongOptions(similar), ", ")
  }

  /** `parse_long`: the current token is `--name` or `--name=value`. */
  function ParseLong(tokens: seq<string>, isParsingArgv: bool, i: nat, options: seq<Pattern>): (r: Result<Parsed>)
    requires i < |tokens| && StartsWith(tokens[i], "--") && AllOptions(options)
    ensures r.Ok? ==>
      i < r.value.next <= |tokens| && AllOptions(r.value.options)
      && options <= r.value.options && |r.value.patterns| == 1 && r.value.patterns[0].Option?
  {
    var (longOpt, equal, rest) := Partition(tokens[i], "=");
    var val := if equal == [] then Default() else FromString(rest);
    var similar := SimilarLong(options, longOpt, isParsingArgv);
    if |similar| > 1 then
      Err(OptionError(NotUniqueMessage(longOpt, similar)))
    else if similar == [] then
      var argcount := if equal == [] then 0 else 1;
      var o := MakeOption("", longOpt, argcount, FromBool(false));
      Ok(Parsed([Given(o, isParsingArgv, if argcount != 0 then val else FromBool(true))], i + 1, options + [o]))
    else
      var o := similar[0];
      if o.argcount == 0 then
        if Truthy(val) then Err(OptionError(o.longOpt + " must not have an argument"))
        else Ok(Parsed([Given(o, isParsingArgv, val)], i + 1, options))
      else if Truthy(val) then
        Ok(Parsed([Given(o, isParsingArgv, val)], i + 1, options))
      else
        var token := CurrentAt(tokens, i + 1);
        if token == [] || token == "--" then Err(OptionError(o.longOpt + " requires an argument"))
        else Ok(Parsed([Given(o, isParsingArgv, FromString(token))], i + 2, options))
  }

  // ---------------------------------------------------------------------------
  // parse_short

  function AmbiguousMessage(shortOpt: string, count: nat): string {
    shortOpt + " is specified ambiguously " + ValueOutput.DecimalString(count) + " times"
  }

  /** `parse_short`: the current token is `-abc`, one option per character. */
  function ParseShort(tokens: seq<string>, isParsingArgv: bool, i: nat, options: seq<Pattern>): (r: Result<Parsed>)
    requires i < |tokens| && StartsWith(tokens[i], "-") && AllOptions(options)
    ensures r.Ok? ==>
      i < r.value.next <= |tokens| && AllOptions(r.value.options)
      && options <= r.value.options
  {
    ShortsFrom(tokens, isParsingArgv, tokens[i], 1, i + 1, options, [])
  }

  /** The `k`-th option emitted is the one for the character after the
      dash at `k + 1`. */
  predicate OneOptionPerCharacter(ps: seq<Pattern>, token: string) {
    |ps| < |token| && forall k :: 0 <= k < |ps| ==> ps[k].Option? && ps[k].shortOpt == ['-', token[k + 1]]
  }

  /** The loop of `parse_short` from the character at `j`, with `next` the
      index of the token after those consumed so far. */
  function ShortsFrom(tokens: seq<string>, isParsingArgv: bool, token: string, j: nat, next: nat,
                      options: seq<Pattern>, acc: seq<Pattern>): (r: Result<Parsed>)
    requires 1 <= j <= |token| && next <= |tokens| && AllOptions(options)
    decreases |token| - j
    ensures r.Ok? ==>
      next <= r.value.next <= |tokens| && AllOptions(r.value.options)
      && options <= r.value.options && acc <= r.value.patterns
  {
    if j == |token| then Ok(Parsed(acc, next, options))
    else
      var shortOpt := ['-', token[j]];
      var similar := WithName(options, ShortForm, shortOpt);
      if |similar| > 1 then
        Err(OptionError(AmbiguousMessage(shortOpt, |similar|)))
      else if similar == [] then
        var o := MakeOption(shortOpt, "", 0, FromBool(false));
        ShortsFrom(tokens, isParsingArgv, token, j + 1, next, options + [o], acc + [Given(o, isParsingArgv, FromBool(true))])
      else
        var o := similar[0];
        if o.argcount == 0 then
          ShortsFrom(tokens, isParsingArgv, token, j + 1, next, options, acc + [Given(o, isParsingArgv, Default())])
        else if j + 1 == |token| then
          var t := CurrentAt(tokens, next);
          if t == [] || t == "--" then Err(OptionError(shortOpt + " requires an argument"))
          else ShortsFrom(tokens, isParsingArgv, token, |token|, next + 1, options, acc + [Given(o, isParsingArgv, FromString(t))])
        else
          ShortsFrom(tokens, isParsingArgv, token, |token|, next, options, acc + [Given(o, isParsingArgv, FromString(token[j + 1..]))])
  }

  /** One round of `parse_short`'s loop either throws or emits one option for
      the character at `j` and goes on; it goes on past the next character
      only when that option takes its argument from the rest of the token. */
  lemma ShortsStep(tokens: seq<string>, isParsingArgv: bool, token: string, j: nat, next: nat,
                   options: seq<Pattern>, acc: seq<Pattern>)
    returns (j2: nat, next2: nat, options2: seq<Pattern>, x: Pattern)
    requires 1 <= j < |token| && next <= |tokens| && AllOptions(options)
    ensures var r := ShortsFrom(tokens, isParsingArgv, token, j, next, options, acc);
      r.Err? || (
        j < j2 <= |token| && next2 <= |tokens| && AllOptions(options2)
        && x.Option? && x.shortOpt == ['-', token[j]] && (j2 == j + 1 || (j2 == |token| && x.argcount != 0))
        && r == ShortsFrom(tokens, isParsingArgv, token, j2, next2, options2, acc + [x]))
  {
    var shortOpt := ['-', token[j]];
    var similar := WithName(options, ShortForm, shortOpt);
    j2, next2, options2 := j + 1, next, options;
    if |similar| > 1 {
      x := MakeOption(shortOpt, "", 0, FromBool(false));
    } else if similar == [] {
      var o := MakeOption(shortOpt, "", 0, FromBool(false));
      options2 := options + [o];
      x := Given(o, isParsingArgv, FromBool(true));
    } else {
      var o := similar[0];
      WithNameMembers(options, ShortForm, shortOpt);
      assert o in similar;
      if o.argcount == 0 {
        x := Given(o, isParsingArgv, Default());
      } else if j + 1 == |token| {
        var t := CurrentAt(tokens, next);
        x := Given(o, isParsingArgv, FromString(t));
        if t != [] && t != "--" {
          next2 := next + 1;
        }
      } else {
        x := Given(o, isParsingArgv, FromString(token[j + 1..]));
        j2 := |token|;
      }
    }
  }

  /** `parse_short` emits one Option per character after the dash, the
      `k`-th for the character at `k + 1`. */
  lemma {:induction false} ShortsFromPerCharacter(tokens: seq<string>, isParsingArgv: bool, token: string, j: nat, next: nat,
                                                  options: seq<Pattern>, acc: seq<Pattern>)
    requires 1 <= j <= |token| && next <= |tokens| && AllOptions(options)
    requires (|acc| == j - 1 || j == |token|) && OneOptionPerCharacter(acc, token)
    decreases |token| - j
    ensures var r := ShortsFrom(tokens, isParsingArgv, token, j, next, options, acc);
      r.Ok? ==> OneOptionPerCharacter(r.value.patterns, token)
  {
    if j < |token| {
      var j2, next2, options2, x := ShortsStep(tokens, isParsingArgv, token, j, next, options, acc);
      if ShortsFrom(tokens, isParsingArgv, token, j, next, options, acc).Ok? {
        assert OneOptionPerCharacter(acc + [x], token) by {
          forall k | 0 <= k < |acc + [x]|
            ensures (acc + [x])[k].Option? && (acc + [x])[k].shortOpt == ['-', token[k + 1]]
          {
            if k < |acc| {
              assert (acc + [x])[k] == acc[k];
            }
          }
        }
        ShortsFromPerCharacter(tokens, isParsingArgv, token, j2, next2, options2, acc + [x]);
      }
    }
  }

  /** Only an option that takes an argument from the rest of the token ends
      the run early: with flags alone there is one per character. */
  lemma {:induction false} ShortsFromCount(tokens: seq<string>, isParsingArgv: bool, token: string, j: nat, next: nat,
                                           options: seq<Pattern>, acc: seq<Pattern>)
    requires 1 <= j <= |token| && next <= |tokens| && AllOptions(options)
    requires |acc| == j - 1
    decreases |token| - j
    ensures var r := ShortsFrom(tokens, isParsingArgv, token, j, next, options, acc);
      r.Ok? && (forall k :: 0 <= k < |r.value.patterns| ==> r.value.patterns[k].Option? && r.value.patterns[k].argcount == 0) ==>
      |r.value.patterns| == |token| - 1
  {
    if j < |token| {
      var j2, next2, options2, x := ShortsStep(tokens, isParsingArgv, token, j, next, options, acc);
      var r := ShortsFrom(tokens, isParsingArgv, token, j, next, options, acc);
      if r.Ok? {
        assert r.value.patterns[|acc|] == x;
        if j2 == j + 1 {
          ShortsFromCount(tokens, isParsingArgv, token, j2, next2, options2, acc + [x]);
        }
      }
    }
  }

  /** For a whole token. */
  lemma ParseShortPerCharacter(tokens: seq<string>, isParsingArgv: bool, i: nat, options: seq<Pattern>)
    requires i < |tokens| && StartsWith(tokens[i], "-") && AllOptions(options)
    ensures var r := ParseShort(tokens, isParsingArgv, i, options);
      r.Ok? ==> OneOptionPerCharacter(r.value.patterns, tokens[i])
    ensures var r := ParseShort(tokens, isParsingArgv, i, options);
      r.Ok? && (forall k :: 0 <= k < |r.value.patterns| ==> r.value.patterns[k].Option? && r.value.patterns[k].argcount == 0) ==>
      |r.value.patterns| == |tokens[i]| - 1
  {
    ShortsFromPerCharacter(tokens, isParsingArgv, tokens[i], 1, i + 1, options, []);
    ShortsFromCount(tokens, isParsingArgv, tokens[i], 1, i + 1, options, []);
  }

  /** What `parse_short` does with the character at `j`, whatever came
      before it:
      - more than one option with that short form is an error that counts them;
      - an unknown one is added to the options as a flag, and is `true`;
      - a known flag keeps its own value (in argv, `true`);
      - an option taking an argument takes the rest of the token when there
        is one, and otherwise the next token, which it consumes; a next token
        that is missing, "" or "--" is an error. Either way the token ends. */
  lemma ShortsFromAt(tokens: seq<string>, isParsingArgv: bool, token: string, j: nat, next: nat,
                     options: seq<Pattern>, acc: seq<Pattern>)
    requires 1 <= j < |token| && next <= |tokens| && AllOptions(options)
    ensures var shortOpt := ['-', token[j]];
      var similar := WithName(options, ShortForm, shortOpt);
      var r := ShortsFrom(tokens, isParsingArgv, token, j, next, options, acc);
      && (|similar| > 1 ==> r == Err(OptionError(AmbiguousMessage(shortOpt, |similar|))))
      && (similar == [] ==>
            var o := MakeOption(shortOpt, "", 0, Bool(false));
            r == ShortsFrom(tokens, isParsingArgv, token, j + 1, next, options + [o], acc + [Given(o, isParsingArgv, Bool(true))]))
      && (|similar| == 1 && similar[0].argcount == 0 ==>
            r == ShortsFrom(tokens, isParsingArgv, token, j + 1, next, options, acc + [Given(similar[0], isParsingArgv, Empty)]))
      && (|similar| == 1 && similar[0].argcount != 0 && j + 1 < |token| ==>
            r == Ok(Parsed(acc + [Given(similar[0], isParsingArgv, String(token[j + 1..]))], next, options)))
      && (|similar| == 1 && similar[0].argcount != 0 && j + 1 == |token| && (next == |tokens| || tokens[next] in {"", "--"}) ==>
            r == Err(OptionError(shortOpt + " requires an argument")))
      && (|similar| == 1 && similar[0].argcount != 0 && j + 1 == |token| && next < |tokens| && tokens[next] !in {"", "--"} ==>
            r == Ok(Parsed(acc + [Given(similar[0], isParsingArgv, String(tokens[next]))], next + 1, options)))
  {
  }

  /** Emitted options that take no argument, one per character so far. */
  predicate FlagsSoFar(acc: seq<Pattern>) {
    forall k :: 0 <= k < |acc| ==> acc[k].Option? && acc[k].argcount == 0
  }

  /** Flags, then one last option that takes an argument. */
  predicate LastTakesArgument(ps: seq<Pattern>) {
    && |ps| > 0 && FlagsSoFar(ps[..|ps| - 1])
    && ps[|ps| - 1].Option? && ps[|ps| - 1].argcount != 0
  }

  /** The shape of what `parse_short` returns for `token` in argv, `next`
      being the index of the token after it: only the last option emitted may
      take an argument. When none does, every character gave one option and
      no token was consumed. When the last one does and characters follow
      it, its value is the rest of the token; when it is the last character,
      its value is the next token, which is consumed. */
  predicate ShortShape(p: Parsed, tokens: seq<string>, token: string, next: nat) {
    var ps := p.patterns;
    && (FlagsSoFar(ps) || LastTakesArgument(ps))
    && (FlagsSoFar(ps) ==> p.next == next && |ps| == |token| - 1)
    && (LastTakesArgument(ps) && |ps| < |token| - 1 ==>
          p.next == next && ps[|ps| - 1].value == String(token[|ps| + 1..]))
    && (LastTakesArgument(ps) && |ps| == |token| - 1 ==>
          p.next == next + 1 && next < |tokens| && ps[|ps| - 1].value == String(tokens[next]))
  }

  /** `parse_short` from character `j` on, in argv, has that shape. */
  lemma {:induction false} ShortsFromShape(tokens: seq<string>, token: string, j: nat, next: nat,
                                           options: seq<Pattern>, acc: seq<Pattern>)
    requires 1 <= j <= |token| && next <= |tokens| && AllOptions(options)
    requires |acc| == j - 1 && FlagsSoFar(acc)
    decreases |token| - j
    ensures var r := ShortsFrom(tokens, true, token, j, next, options, acc);
      r.Ok? ==> ShortShape(r.value, tokens, token, next)
  {
    if j < |token| {
      var shortOpt := ['-', token[j]];
      var similar := WithName(options, ShortForm, shortOpt);
      if similar == [] {
        ShortsFromAt(tokens, true, token, j, next, options, acc);
        var o := MakeOption(shortOpt, "", 0, Bool(false));
        var x := Given(o, true, Bool(true));
        FlagsSnoc(acc, x);
        ShortsFromShape(tokens, token, j + 1, next, options + [o], acc + [x]);
      } else if |similar| == 1 && similar[0].argcount == 0 {
        ShortsFromAt(tokens, true, token, j, next, options, acc);
        var x := Given(similar[0], true, Empty);
        FlagsSnoc(acc, x);
        ShortsFromShape(tokens, token, j + 1, next, options, acc + [x]);
      } else {
        ShortsFromShapeStops(tokens, token, j, next, options, acc);
      }
    }
  }

  /** `ShortsFromShape` where the loop ends: at a valued option, which takes
      its argument, or at an ambiguous one. */
  lemma ShortsFromShapeStops(tokens: seq<string>, token: string, j: nat, next: nat,
                             options: seq<Pattern>, acc: seq<Pattern>)
    requires 1 <= j < |token| && next <= |tokens| && AllOptions(options)
    requires |acc| == j - 1 && FlagsSoFar(acc)
    requires var similar := WithName(options, ShortForm, ['-', token[j]]);
      similar != [] && !(|similar| == 1 && similar[0].argcount == 0)
    ensures var r := ShortsFrom(tokens, true, token, j, next, options, acc);
      r.Ok? ==> ShortShape(r.value, tokens, token, next)
  {
    var similar := WithName(options, ShortForm, ['-', token[j]]);
    ShortsFromAt(tokens, true, token, j, next, options, acc);
    if |similar| == 1 {
      var o := similar[0];
      if j + 1 < |token| {
        ArgumentShape(tokens, token, next, options, acc, Given(o, true, String(token[j + 1..])), next);
      } else if next < |tokens| && tokens[next] !in {"", "--"} {
        ArgumentShape(tokens, token, next, options, acc, Given(o, true, String(tokens[next])), next + 1);
      }
    }
  }

  /** The last option takes an argument: the token ends with it. */
  lemma ArgumentShape(tokens: seq<string>, token: string, next: nat, options: seq<Pattern>, acc: seq<Pattern>, x: Pattern, after: nat)
    requires FlagsSoFar(acc) && x.Option? && x.argcount != 0 && |acc| + 1 < |token|
    requires |acc| + 2 < |token| ==> after == next && x.value == String(token[|acc| + 2..])
    requires |acc| + 2 == |token| ==> after == next + 1 && next < |tokens| && x.value == String(tokens[next])
    ensures ShortShape(Parsed(acc + [x], after, options), tokens, token, next)
  {
    var ps := acc + [x];
    assert ps[..|ps| - 1] == acc;
    assert LastTakesArgument(ps);
    assert !FlagsSoFar(ps) by { assert ps[|ps| - 1] == x; }
  }

  lemma FlagsSnoc(acc: seq<Pattern>, x: Pattern)
    requires FlagsSoFar(acc) && x.Option? && x.argcount == 0
    ensures FlagsSoFar(acc + [x])
  {
    assert forall k :: 0 <= k < |acc| ==> (acc + [x])[k] == acc[k];
  }

  /** `parse_short` in argv, as a whole: the options of a token `-abc` are
      flags except perhaps the last, which takes the rest of the token when
      characters follow it and the next token otherwise; the next token is
      consumed exactly in that last case. */
  lemma ParseShortArgvValue(tokens: seq<string>, i: nat, options: seq<Pattern>)
    requires i < |tokens| && StartsWith(tokens[i], "-") && AllOptions(options)
    ensures var r := ParseShort(tokens, true, i, options);
      r.Ok? ==> ShortShape(r.value, tokens, tokens[i], i + 1)
  {
    ShortsFromShape(tokens, tokens[i], 1, i + 1, options, []);
  }

  /** The errors of `parse_short` are the two it throws, each for some
      character of the token: an ambiguous short option, or one that needs
      an argument it cannot get. */
  lemma {:induction false} ShortsFromErrors(tokens: seq<string>, isParsingArgv: bool, token: string, j: nat, next: nat,
                                            options: seq<Pattern>, acc: seq<Pattern>) returns (k: nat)
    requires 1 <= j <= |token| && next <= |tokens| && AllOptions(options)
    decreases |token| - j
    ensures var r := ShortsFrom(tokens, isParsingArgv, token, j, next, options, acc);
      r.Err? ==> j <= k < |token| && ShortError(r.error, ['-', token[k]])
  {
    k := j;
    if j < |token| {
      var similar := WithName(options, ShortForm, ['-', token[j]]);
      if similar == [] || (|similar| == 1 && similar[0].argcount == 0) {
        var options', acc' := ShortsFromGoesOn(tokens, isParsingArgv, token, j, next, options, acc);
        k := ShortsFromErrors(tokens, isParsingArgv, token, j + 1, next, options', acc');
      } else {
        ShortsFromStops(tokens, isParsingArgv, token, j, next, options, acc);
      }
    }
  }

  /** A character that is unknown or a flag hands the rest of the token to
      the loop again. */
  lemma ShortsFromGoesOn(tokens: seq<string>, isParsingArgv: bool, token: string, j: nat, next: nat,
                         options: seq<Pattern>, acc: seq<Pattern>) returns (options': seq<Pattern>, acc': seq<Pattern>)
    requires 1 <= j < |token| && next <= |tokens| && AllOptions(options)
    requires var similar := WithName(options, ShortForm, ['-', token[j]]);
      similar == [] || (|similar| == 1 && similar[0].argcount == 0)
    ensures AllOptions(options')
    ensures ShortsFrom(tokens, isParsingArgv, token, j, next, options, acc)
      == ShortsFrom(tokens, isParsingArgv, token, j + 1, next, options', acc')
  {
    var shortOpt := ['-', token[j]];
    var similar := WithName(options, ShortForm, shortOpt);
    ShortsFromAt(tokens, isParsingArgv, token, j, next, options, acc);
    if similar == [] {
      var o := MakeOption(shortOpt, "", 0, Bool(false));
      options', acc' := options + [o], acc + [Given(o, isParsingArgv, Bool(true))];
    } else {
      options', acc' := options, acc + [Given(similar[0], isParsingArgv, Empty)];
    }
  }

  /** A character that is ambiguous or takes an argument ends the loop; if
      with an error, then with one of the two errors for that character. */
  lemma ShortsFromStops(tokens: seq<string>, isParsingArgv: bool, token: string, j: nat, next: nat,
                        options: seq<Pattern>, acc: seq<Pattern>)
    requires 1 <= j < |token| && next <= |tokens| && AllOptions(options)
    requires var similar := WithName(options, ShortForm, ['-', token[j]]);
      !(similar == [] || (|similar| == 1 && similar[0].argcount == 0))
    ensures var r := ShortsFrom(tokens, isParsingArgv, token, j, next, options, acc);
      r.Err? ==> ShortError(r.error, ['-', token[j]])
  {
    var shortOpt := ['-', token[j]];
    var similar := WithName(options, ShortForm, shortOpt);
    ShortsFromAt(tokens, isParsingArgv, token, j, next, options, acc);
    if |similar| > 1 {
      assert ShortsFrom(tokens, isParsingArgv, token, j, next, options, acc).error
        == OptionError(AmbiguousMessage(shortOpt, |similar|));
    }
  }

  /** The two errors `parse_short` throws for the short option `shortOpt`. */
  ghost predicate ShortError(e: Error, shortOpt: string) {
    e == OptionError(shortOpt + " requires an argument")
    || exists n: nat :: n > 1 && e == OptionError(AmbiguousMessage(shortOpt, n))
  }

  /** `parse_short` on the whole token: the first character is handled as
      `ShortsFromAt` says, and any error names a character of the token. */
  lemma ParseShortErrors(tokens: seq<string>, isParsingArgv: bool, i: nat, options: seq<Pattern>)
    requires i < |tokens| && StartsWith(tokens[i], "-") && AllOptions(options)
    ensures var r := ParseShort(tokens, isParsingArgv, i, options);
      r.Err? ==> exists k :: 1 <= k < |tokens[i]| && ShortError(r.error, ['-', tokens[i][k]])
    ensures var r := ParseShort(tokens, isParsingArgv, i, options);
      var token := tokens[i];
      |token| > 1 ==>
        var shortOpt := ['-', token[1]];
        var similar := WithName(options, ShortForm, shortOpt);
        && (|similar| > 1 ==> r == Err(OptionError(AmbiguousMessage(shortOpt, |similar|))))
        && (|similar| == 1 && similar[0].argcount != 0 && |token| == 2 && (i + 1 == |tokens| || tokens[i + 1] in {"", "--"}) ==>
              r == Err(OptionError(shortOpt + " requires an argument")))
  {
    var k := ShortsFromErrors(tokens, isParsingArgv, tokens[i], 1, i + 1, options, []);
    if |tokens[i]| > 1 {
      ShortsFromAt(tokens, isParsingArgv, tokens[i], 1, i + 1, options, []);
    }
  }

  // ---------------------------------------------------------------------------
  // parse_atom, parse_seq, parse_expr

  /** `maybe_collapse_to_required`. */
  function CollapseToRequired(s: seq<Pattern>): (r: Pattern)
    ensures |s| == 1 ==> r == s[0]
    ensures |s| != 1 ==> r == Required(s)
  {
    if |s| == 1 then s[0] else Required(s)
  }

  /** `maybe_collapse_to_either`. */
  function CollapseToEither(s: seq<Pattern>): (r: Pattern)
    ensures |s| == 1 ==> r == s[0]
    ensures |s| != 1 ==> r == Either(s)
  {
    if |s| == 1 then s[0] else Either(s)
  }

  /** `parse_atom`. A bracket that is not closed by the token `]` (or `)`)
      is a language error, and one without any token after it fails in
      `pop()`. */
  function ParseAtom(tokens: seq<string>, isParsingArgv: bool, i: nat, options: seq<Pattern>): (r: Result<Parsed>)
    requires i <= |tokens| && AllOptions(options)
    decreases |tokens| - i, 0
    ensures r.Ok? ==>
      i < r.value.next <= |tokens| && AllOptions(r.value.options)
      && options <= r.value.options
  {
    var token := CurrentAt(tokens, i);
    if token == "[" || token == "(" then
      var e :- ParseExpr(tokens, isParsingArgv, i + 1, options);
      var trailing :- PopAt(tokens, e.next);
      if token == "[" then
        if trailing != "]" then Err(LanguageError("Mismatched '['"))
        else Ok(Parsed([Optional(e.patterns)], e.next + 1, e.options))
      else
        if trailing != ")" then Err(LanguageError("Mismatched '('"))
        else Ok(Parsed([Required(e.patterns)], e.next + 1, e.options))
    else if token == "options" then
      Ok(Parsed([OptionsShortcut([])], i + 1, options))
    else if StartsWith(token, "--") && token != "--" then
      ParseLong(tokens, isParsingArgv, i, options)
    else if StartsWith(token, "-") && token != "-" && token != "--" then
      ParseShort(tokens, isParsingArgv, i, options)
    else if IsArgumentSpec(token) then
      Ok(Parsed([MakeArgument(token)], i + 1, options))
    else
      var name :- PopAt(tokens, i);
      Ok(Parsed([MakeCommand(name)], i + 1, options))
  }

  /** The loop of `parse_seq` from index `i`, with `acc` the patterns so far. */
  function SeqFrom(tokens: seq<string>, isParsingArgv: bool, i: nat, options: seq<Pattern>, acc: seq<Pattern>): (r: Result<Parsed>)
    requires i <= |tokens| && AllOptions(options)
    decreases |tokens| - i, 1
    ensures r.Ok? ==>
      i <= r.value.next <= |tokens| && AllOptions(r.value.options)
      && options <= r.value.options && acc <= r.value.patterns
  {
    if i == |tokens| then Ok(Parsed(acc, i, options))
    else
      var token := tokens[i];
      if token == "]" || token == ")" || token == "|" then Ok(Parsed(acc, i, options))
      else
        var atom :- ParseAtom(tokens, isParsingArgv, i, options);
        if CurrentAt(tokens, atom.next) == "..." then
          SeqFrom(tokens, isParsingArgv, atom.next + 1, atom.options, acc + [OneOrMore(atom.patterns)])
        else
          SeqFrom(tokens, isParsingArgv, atom.next, atom.options, acc + atom.patterns)
  }

  /** `parse_seq`. */
  function ParseSeq(tokens: seq<string>, isParsingArgv: bool, i: nat, options: seq<Pattern>): (r: Result<Parsed>)
    requires i <= |tokens| && AllOptions(options)
    decreases |tokens| - i, 2
    ensures r.Ok? ==>
      i <= r.value.next <= |tokens| && AllOptions(r.value.options)
      && options <= r.value.options
  {
    SeqFrom(tokens, isParsingArgv, i, options, [])
  }

  /** The loop of `parse_expr` over the alternatives after the first, with
      `alts` the collapsed alternatives so far. */
  function AlternativesFrom(tokens: seq<string>, isParsingArgv: bool, i: nat, options: seq<Pattern>, alts: seq<Pattern>): (r: Result<Parsed>)
    requires i <= |tokens| && AllOptions(options)
    decreases |tokens| - i, 2
    ensures r.Ok? ==>
      i <= r.value.next <= |tokens| && AllOptions(r.value.options)
      && options <= r.value.options
  {
    if CurrentAt(tokens, i) != "|" then Ok(Parsed([CollapseToEither(alts)], i, options))
    else
      var s :- ParseSeq(tokens, isParsingArgv, i + 1, options);
      AlternativesFrom(tokens, isParsingArgv, s.next, s.options, alts + [CollapseToRequired(s.patterns)])
  }

  /** `parse_expr`. */
  function ParseExpr(tokens: seq<string>, isParsingArgv: bool, i: nat, options: seq<Pattern>): (r: Result<Parsed>)
    requires i <= |tokens| && AllOptions(options)
    decreases |tokens| - i, 3
    ensures r.Ok? ==>
      i <= r.value.next <= |tokens| && AllOptions(r.value.options)
      && options <= r.value.options
  {
    var s :- ParseSeq(tokens, isParsingArgv, i, options);
    if CurrentAt(tokens, s.next) != "|" then Ok(s)
    else AlternativesFrom(tokens, isParsingArgv, s.next, s.options, [CollapseToRequired(s.patterns)])
  }

  /** `parse_pattern` on the tokens of the formal usage: one expression that
      must use up every token. */
  function ParsePattern(tokens: seq<string>, options: seq<Pattern>): (r: Result<(Pattern, seq<Pattern>)>)
    requires AllOptions(options)
    ensures r.Ok? ==> r.value.0.Required? && AllOptions(r.value.1) && options <= r.value.1
  {
    var e :- ParseExpr(tokens, false, 0, options);
    if e.next < |tokens| then Err(LanguageError("Unexpected ending: '" + RestAt(tokens, e.next) + "'"))
    else if |e.patterns| != 1 then Err(AssertionFailure("top level is always one big"))
    else Ok((Required(e.patterns), e.options))
  }

  // ---------------------------------------------------------------------------
  // formal_usage

  /** Where `formal_usage` starts splitting: after the first colon, or, with
      no colon, at 0 (`npos + 1` wraps around). */
  function UsageStart(section: string): nat {
    match Find(section, ":")
    case None => 0
    case Some(k) => k + 1
  }

  /** The text `formal_usage` writes for the words from `ii` on: the program
      name opens a new alternative, any other word is copied. */
  function FormalFrom(parts: seq<string>, ii: nat): string
    requires 1 <= ii <= |parts|
    decreases |parts| - ii
  {
    if ii == |parts| then ""
    else (if parts[ii] == parts[0] then " ) | (" else " " + parts[ii]) + FormalFrom(parts, ii + 1)
  }

  /** `formal_usage(section)`. */
  function FormalUsage(section: string): string {
    var parts := WordsFrom(section, AnySpace, UsageStart(section));
    "(" + (if parts == [] then "" else FormalFrom(parts, 1)) + " )"
  }

  // ---------------------------------------------------------------------------
  // parse_argv

  /** Every token as a positional Argument with no name. */
  function ArgumentsOf(ts: seq<string>): (r: seq<Pattern>)
    ensures |r| == |ts| && forall k :: 0 <= k < |ts| ==> r[k] == Argument("", String(ts[k]))
  {
    if ts == [] then [] else [Argument("", FromString(ts[0]))] + ArgumentsOf(ts[1..])
  }

  /** The loop of `parse_argv` from index `i`, with `acc` the patterns so far. */
  function ArgvFrom(tokens: seq<string>, i: nat, options: seq<Pattern>, optionsFirst: bool, acc: seq<Pattern>): (r: Result<Parsed>)
    requires i <= |tokens| && AllOptions(options)
    decreases |tokens| - i
    ensures r.Ok? ==> r.value.next == |tokens| && AllOptions(r.value.options) && acc <= r.value.patterns
  {
    if i == |tokens| then Ok(Parsed(acc, i, options))
    else
      var token := tokens[i];
      if token == "--" then
        Ok(Parsed(acc + ArgumentsOf(tokens[i..]), |tokens|, options))
      else if StartsWith(token, "--") then
        var p :- ParseLong(tokens, true, i, options);
        ArgvFrom(tokens, p.next, p.options, optionsFirst, acc + p.patterns)
      else if DashFirst(token) && token != "-" then
        var p :- ParseShort(tokens, true, i, options);
        ArgvFrom(tokens, p.next, p.options, optionsFirst, acc + p.patterns)
      else if optionsFirst then
        Ok(Parsed(acc + ArgumentsOf(tokens[i..]), |tokens|, options))
      else
        ArgvFrom(tokens, i + 1, options, optionsFirst, acc + [Argument("", FromString(token))])
  }

  /** `parse_argv(Tokens(argv), options, options_first)`. */
  function ParseArgv(argv: seq<string>, options: seq<Pattern>, optionsFirst: bool): (r: Result<Parsed>)
    requires AllOptions(options)
    ensures r.Ok? ==> AllOptions(r.value.options)
  {
    ArgvFrom(argv, 0, options, optionsFirst, [])
  }

  // ---------------------------------------------------------------------------
  // Option::parse

  /** The characters that end a word of an option description: `[,= ]`. */
  const Delimiters: set<char> := {',', '=', ' '}

  /** The characters `.` does not match in an ECMAScript regular expression. */
  const LineTerminators: set<char> := {'\n', '\r'}

  /** The end of the word that starts at `p`: the first delimiter from `p`
      on, or `end`. */
  function WordEnd(s: string, p: nat, end: nat): (r: nat)
    requires p <= end <= |s|
    decreases end - p
    ensures p <= r <= end
    ensures r < end ==> s[r] in Delimiters
    ensures forall k :: p <= k < r ==> s[k] !in Delimiters
  {
    if p == end || s[p] in Delimiters then p else WordEnd(s, p + 1, end)
  }

  /** `(--|-)?(.*?)([,= ]|$)` matches at `p`, below `end`, iff no line
      terminator comes before the end of the word. */
  predicate MatchesAt(s: string, p: nat, end: nat)
    requires p <= end <= |s|
  {
    p < end && forall k :: p <= k < WordEnd(s, p, end) ==> s[k] !in LineTerminators
  }

  /** The first position from `p` on where the pattern matches. */
  function NextMatch(s: string, p: nat, end: nat): (r: Maybe<nat>)
    requires p <= end <= |s|
    decreases end - p
    ensures r.Some? ==> p <= r.value < end
  {
    if p == end then None
    else if MatchesAt(s, p, end) then Some(p)
    else NextMatch(s, p + 1, end)
  }

  /** The regex iterator finds the first position where the pattern matches. */
  lemma {:induction false} NextMatchIsFirst(s: string, p: nat, end: nat)
    requires p <= end <= |s|
    decreases end - p
    ensures var r := NextMatch(s, p, end);
      (r.Some? ==> MatchesAt(s, r.value, end) && forall q :: p <= q < r.value ==> !MatchesAt(s, q, end))
      && (r.None? ==> forall q :: p <= q <= end ==> !MatchesAt(s, q, end))
  {
    if p < end && !MatchesAt(s, p, end) {
      NextMatchIsFirst(s, p + 1, end);
    }
  }

  /** How many dashes group 1 takes at `p`: `--` is tried before `-`. */
  function Dashes(s: string, p: nat, end: nat): (d: nat)
    requires p <= end <= |s|
    ensures d <= 2 && p + d <= end
    ensures forall k :: p <= k < p + d ==> s[k] == '-'
  {
    if p + 2 <= end && s[p] == '-' && s[p + 1] == '-' then 2
    else if p + 1 <= end && s[p] == '-' then 1
    else 0
  }

  /** The short option, the long option and the argument count so far. */
  datatype OptionParts = OptionParts(shortOpt: string, longOpt: string, argcount: int)

  /** Where the word of the match at `q` ends: after its dashes, at the
      next delimiter or at `end`. */
  function MatchEnd(s: string, q: nat, end: nat): (r: nat)
    requires q <= end <= |s|
    ensures q <= r <= end
  {
    WordEnd(s, q + Dashes(s, q, end), end)
  }

  /** What the match at `q` contributes: after `--` a long option, after
      `-` a short one, else a non-empty word means an argument. */
  function MatchParts(s: string, q: nat, end: nat, acc: OptionParts): (r: OptionParts)
    requires q <= end <= |s|
    ensures r.argcount == acc.argcount || r.argcount == 1
    ensures Dashes(s, q, end) != 0 ==> r.argcount == acc.argcount
  {
    var d := Dashes(s, q, end);
    var word := s[q + d..MatchEnd(s, q, end)];
    if d == 1 then acc.(shortOpt := "-" + word)
    else if d == 2 then acc.(longOpt := "--" + word)
    else if |word| > 0 then acc.(argcount := 1)
    else acc
  }

  /** The loop over the matches of `Option::parse` from position `p`. */
  function OptionMatches(s: string, p: nat, end: nat, acc: OptionParts): (r: OptionParts)
    requires p <= end <= |s|
    decreases end - p
    ensures acc.argcount == 1 ==> r.argcount == 1
    ensures r.argcount == 0 || r.argcount == 1 || r.argcount == acc.argcount
  {
    match NextMatch(s, p, end)
    case None => acc
    case Some(q) =>
      var we := MatchEnd(s, q, end);
      var acc' := MatchParts(s, q, end, acc);
      if we == end then acc' else OptionMatches(s, we + 1, end, acc')
  }

  /** ASCII lower case, as the `icase` flag compares letters. */
  function Lower(c: char): char {
    if 'A' <= c <= 'Z' then (c as int + 32) as char else c
  }

  const DefaultOpen := "[default: "

  /** The text at `q` is `[default: `, ignoring case. */
  predicate DefaultOpensAt(s: string, q: nat) {
    q + |DefaultOpen| <= |s| && forall k :: 0 <= k < |DefaultOpen| ==> Lower(s[q + k]) == Lower(DefaultOpen[k])
  }

  /** The end of the run of characters `.` matches from `p`. */
  function LineEnd(s: string, p: nat): (r: nat)
    requires p <= |s|
    decreases |s| - p
    ensures p <= r <= |s| && (r < |s| ==> s[r] in LineTerminators)
    ensures forall k :: p <= k < r ==> s[k] !in LineTerminators
  {
    if p == |s| || s[p] in LineTerminators then p else LineEnd(s, p + 1)
  }

  /** The last `]` in `s[p..e)`, which the greedy `(.*)` stops before. */
  function LastClose(s: string, p: nat, e: nat): (r: Maybe<nat>)
    requires p <= e <= |s|
    decreases e - p
    ensures r.Some? ==> p <= r.value < e && s[r.value] == ']'
    ensures r.Some? ==> forall k :: r.value < k < e ==> s[k] != ']'
    ensures r.None? ==> forall k :: p <= k < e ==> s[k] != ']'
  {
    if e == p then None
    else if s[e - 1] == ']' then Some(e - 1)
    else LastClose(s, p, e - 1)
  }

  /** Where `\[default: (.*)\]` matches at `q`: the text it captures. */
  function DefaultAt(s: string, q: nat): (r: Maybe<string>)
    requires q <= |s|
  {
    if !DefaultOpensAt(s, q) then None
    else
      var from := q + |DefaultOpen|;
      match LastClose(s, from, LineEnd(s, from))
      case None => None
      case Some(b) => Some(s[from..b])
  }

  /** `regex_search` for the default from position `q` on: the leftmost match. */
  function DefaultFrom(s: string, q: nat): (r: Maybe<string>)
    requires q <= |s|
    decreases |s| - q
  {
    if DefaultAt(s, q).Some? then DefaultAt(s, q)
    else if q == |s| then None
    else DefaultFrom(s, q + 1)
  }

  /** Where the option part of a description ends: at the first double space. */
  function OptionsEnd(description: string): (r: nat)
    ensures r <= |description|
    ensures r < |description| ==> OccursAt(description, "  ", r)
    ensures forall j :: 0 <= j < r ==> !OccursAt(description, "  ", j)
  {
    match Find(description, "  ")
    case None => |description|
    case Some(k) => k
  }

  /** `Option::parse(option_description)`. */
  function ParseOption(description: string): (r: Pattern)
    ensures r.Option?
    ensures r.argcount == 0 || r.argcount == 1
    ensures r.argcount == 0 ==> r.value == Bool(false)
    ensures r.argcount == 1 ==> (r.value.String? <==> DefaultFrom(description, OptionsEnd(description)).Some?)
    ensures r.argcount == 1 && r.value.String? ==> r.value.s == DefaultFrom(description, OptionsEnd(description)).value
    ensures r.argcount == 1 && !r.value.String? ==> r.value == Empty
  {
    var end := OptionsEnd(description);
    var parts := OptionMatches(description, 0, end, OptionParts("", "", 0));
    var val :=
      if parts.argcount != 0 then
        match DefaultFrom(description, end)
        case Some(v) => FromString(v)
        case None => FromBool(false)
      else FromBool(false);
    MakeOption(parts.shortOpt, parts.longOpt, parts.argcount, val)
  }

  // ---------------------------------------------------------------------------
  // Properties of parse_long

  /** The long option named by a `--name` or `--name=value` token. */
  function LongName(token: string): string {
    Partition(token, "=").0
  }

  /** A long option nobody has (exactly, or in argv as a prefix) is added to
      the option list, taking an argument iff the token holds a `=`. */
  lemma ParseLongUnknown(tokens: seq<string>, isParsingArgv: bool, i: nat, options: seq<Pattern>)
    requires i < |tokens| && StartsWith(tokens[i], "--") && AllOptions(options)
    requires SimilarLong(options, LongName(tokens[i]), isParsingArgv) == []
    ensures var r := ParseLong(tokens, isParsingArgv, i, options);
      r.Ok? && r.value.next == i + 1 && |r.value.options| == |options| + 1
      && r.value.options[..|options|] == options
      && var o := r.value.options[|options|];
      o.Option? && o.longOpt == LongName(tokens[i]) && o.shortOpt == ""
      && (o.argcount == 1 <==> Find(tokens[i], "=").Some?)
      && (o.argcount == 0 <==> Find(tokens[i], "=").None?)
  {
  }

  /** More than one candidate is an error that lists them all. */
  lemma ParseLongNotUnique(tokens: seq<string>, isParsingArgv: bool, i: nat, options: seq<Pattern>)
    requires i < |tokens| && StartsWith(tokens[i], "--") && AllOptions(options)
    requires |SimilarLong(options, LongName(tokens[i]), isParsingArgv)| > 1
    ensures ParseLong(tokens, isParsingArgv, i, options)
      == Err(OptionError(NotUniqueMessage(LongName(tokens[i]), SimilarLong(options, LongName(tokens[i]), isParsingArgv))))
  {
  }

  /** Prefixes of long options are only considered in argv. */
  lemma PrefixesOnlyInArgv(options: seq<Pattern>, longOpt: string)
    requires AllOptions(options)
    ensures forall o :: o in SimilarLong(options, longOpt, false) <==> o in options && o.longOpt == longOpt
  {
    WithNameMembers(options, LongForm, longOpt);
  }

  /** A flag given `=value` is an error; an option taking an argument that
      has neither `=value` nor a usable next token is an error too. */
  lemma ParseLongArgumentErrors(tokens: seq<string>, isParsingArgv: bool, i: nat, options: seq<Pattern>)
    requires i < |tokens| && StartsWith(tokens[i], "--") && AllOptions(options)
    requires |SimilarLong(options, LongName(tokens[i]), isParsingArgv)| == 1
    ensures var o := SimilarLong(options, LongName(tokens[i]), isParsingArgv)[0];
      o.argcount == 0 && Find(tokens[i], "=").Some? ==>
      ParseLong(tokens, isParsingArgv, i, options) == Err(OptionError(o.longOpt + " must not have an argument"))
    ensures var o := SimilarLong(options, LongName(tokens[i]), isParsingArgv)[0];
      o.argcount != 0 && Find(tokens[i], "=").None? && (i + 1 == |tokens| || tokens[i + 1] in {"", "--"}) ==>
      ParseLong(tokens, isParsingArgv, i, options) == Err(OptionError(o.longOpt + " requires an argument"))
  {
  }

  /** In argv the one candidate is copied with the value given: the text
      after `=`, else the next token for an option taking an argument, else
      `true`. */
  lemma ParseLongArgvValue(tokens: seq<string>, i: nat, options: seq<Pattern>)
    requires i < |tokens| && StartsWith(tokens[i], "--") && AllOptions(options)
    requires |SimilarLong(options, LongName(tokens[i]), true)| == 1
    ensures var o := SimilarLong(options, LongName(tokens[i]), true)[0];
      var r := ParseLong(tokens, true, i, options);
      var eq := Find(tokens[i], "=");
      r.Ok? ==>
        r.value.options == options && r.value.patterns[0].name == o.name
        && (eq.Some? ==> r.value.next == i + 1 && r.value.patterns[0].value == String(tokens[i][eq.value + 1..]))
        && (eq.None? && o.argcount == 0 ==> r.value.next == i + 1 && r.value.patterns[0].value == Bool(true))
        && (eq.None? && o.argcount != 0 ==> r.value.next == i + 2 && r.value.patterns[0].value == String(tokens[i + 1]))
  {
  }

  // ---------------------------------------------------------------------------
  // Properties of parse_atom, parse_expr and parse_pattern

  /** A bracket must be closed by its own closing token: another token there
      is a language error, and no token at all fails in `pop()`. */
  lemma UnclosedBracket(tokens: seq<string>, isParsingArgv: bool, i: nat, options: seq<Pattern>)
    requires i < |tokens| && (tokens[i] == "[" || tokens[i] == "(") && AllOptions(options)
    ensures var e := ParseExpr(tokens, isParsingArgv, i + 1, options);
      var closing := if tokens[i] == "[" then "]" else ")";
      e.Ok? && e.value.next < |tokens| && tokens[e.value.next] != closing ==>
      ParseAtom(tokens, isParsingArgv, i, options) == Err(LanguageError("Mismatched '" + tokens[i] + "'"))
    ensures var e := ParseExpr(tokens, isParsingArgv, i + 1, options);
      e.Ok? && e.value.next == |tokens| ==> ParseAtom(tokens, isParsingArgv, i, options) == Err(OutOfRange(AtMessage))
  {
    assert "Mismatched '" + "[" + "'" == "Mismatched '['";
    assert "Mismatched '" + "(" + "'" == "Mismatched '('";
  }

  /** `parse_seq` stops, handing back what it has, at the end of the tokens
      and at `]`, `)` or `|`. */
  lemma SeqStops(tokens: seq<string>, isParsingArgv: bool, i: nat, options: seq<Pattern>, acc: seq<Pattern>)
    requires i <= |tokens| && AllOptions(options)
    requires i == |tokens| || tokens[i] in {"]", ")", "|"}
    ensures SeqFrom(tokens, isParsingArgv, i, options, acc) == Ok(Parsed(acc, i, options))
  {
  }

  /** Otherwise `parse_seq` reads an atom: followed by `...` it becomes one
      `OneOrMore` of the atom's patterns and the `...` is consumed; otherwise
      its patterns are spliced in. Either way what is built so far stays in
      front of the result, and an error of the atom is the result. */
  lemma SeqAtom(tokens: seq<string>, isParsingArgv: bool, i: nat, options: seq<Pattern>, acc: seq<Pattern>)
    requires i < |tokens| && AllOptions(options) && tokens[i] !in {"]", ")", "|"}
    ensures var a := ParseAtom(tokens, isParsingArgv, i, options);
      var r := SeqFrom(tokens, isParsingArgv, i, options, acc);
      && (a.Err? ==> r == Err(a.error))
      && (a.Ok? && CurrentAt(tokens, a.value.next) == "..." ==>
            && r == SeqFrom(tokens, isParsingArgv, a.value.next + 1, a.value.options, acc + [OneOrMore(a.value.patterns)])
            && (r.Ok? ==> acc + [OneOrMore(a.value.patterns)] <= r.value.patterns && a.value.next + 1 <= r.value.next))
      && (a.Ok? && CurrentAt(tokens, a.value.next) != "..." ==>
            && r == SeqFrom(tokens, isParsingArgv, a.value.next, a.value.options, acc + a.value.patterns)
            && (r.Ok? ==> acc + a.value.patterns <= r.value.patterns))
  {
    SeqFromUnfold(tokens, isParsingArgv, i, options, acc);
    var a := ParseAtom(tokens, isParsingArgv, i, options);
    if a.Ok? && CurrentAt(tokens, a.value.next) != "..." {
      assert acc <= acc + a.value.patterns;
    }
  }

  /** One unfolding of the loop of `parse_seq` at an atom. */
  lemma SeqFromUnfold(tokens: seq<string>, isParsingArgv: bool, i: nat, options: seq<Pattern>, acc: seq<Pattern>)
    requires i < |tokens| && AllOptions(options) && tokens[i] !in {"]", ")", "|"}
    ensures var a := ParseAtom(tokens, isParsingArgv, i, options);
      SeqFrom(tokens, isParsingArgv, i, options, acc)
        == if a.Err? then Err(a.error)
           else if CurrentAt(tokens, a.value.next) == "..." then
             SeqFrom(tokens, isParsingArgv, a.value.next + 1, a.value.options, acc + [OneOrMore(a.value.patterns)])
           else SeqFrom(tokens, isParsingArgv, a.value.next, a.value.options, acc + a.value.patterns)
  {
    var token := tokens[i];
    assert token != "]" && token != ")" && token != "|";
  }

  /** The sequences `parse_expr` reads after each `|` from `i` on, with the
      index after the last of them and the options they leave. */
  function SeqsAfterBars(tokens: seq<string>, isParsingArgv: bool, i: nat, options: seq<Pattern>)
    : (r: Result<(seq<seq<Pattern>>, nat, seq<Pattern>)>)
    requires i <= |tokens| && AllOptions(options)
    decreases |tokens| - i
    ensures r.Ok? ==> i <= r.value.1 <= |tokens| && AllOptions(r.value.2) && options <= r.value.2
    ensures r.Ok? ==> (r.value.0 == [] <==> CurrentAt(tokens, i) != "|")
    ensures r.Ok? ==> CurrentAt(tokens, r.value.1) != "|"
  {
    if CurrentAt(tokens, i) != "|" then Ok(([], i, options))
    else
      var s :- ParseSeq(tokens, isParsingArgv, i + 1, options);
      var rest :- SeqsAfterBars(tokens, isParsingArgv, s.next, s.options);
      Ok(([s.patterns] + rest.0, rest.1, rest.2))
  }

  /** Each sequence collapsed to one pattern (`maybe_collapse_to_required`). */
  function CollapsedAll(seqs: seq<seq<Pattern>>): (r: seq<Pattern>)
    ensures |r| == |seqs| && forall k :: 0 <= k < |seqs| ==> r[k] == CollapseToRequired(seqs[k])
  {
    if seqs == [] then [] else [CollapseToRequired(seqs[0])] + CollapsedAll(seqs[1..])
  }

  /** The `|` loop of `parse_expr` appends every sequence after a `|`,
      collapsed, to the alternatives so far, and makes one Either of them all
      (or keeps a lone one); it fails exactly when one of those sequences
      fails, with its error. */
  lemma {:induction false} AlternativesShape(tokens: seq<string>, isParsingArgv: bool, i: nat, options: seq<Pattern>, alts: seq<Pattern>)
    requires i <= |tokens| && AllOptions(options)
    decreases |tokens| - i
    ensures var r := AlternativesFrom(tokens, isParsingArgv, i, options, alts);
      var b := SeqsAfterBars(tokens, isParsingArgv, i, options);
      && (r.Ok? <==> b.Ok?)
      && (r.Err? ==> r.error == b.error)
      && (b.Ok? ==> r.value == Parsed([CollapseToEither(alts + CollapsedAll(b.value.0))], b.value.1, b.value.2))
  {
    if CurrentAt(tokens, i) == "|" {
      var s := ParseSeq(tokens, isParsingArgv, i + 1, options);
      if s.Ok? {
        var alts' := alts + [CollapseToRequired(s.value.patterns)];
        AlternativesShape(tokens, isParsingArgv, s.value.next, s.value.options, alts');
        AlternativesBar(tokens, isParsingArgv, i, options, alts);
        var rest := SeqsAfterBars(tokens, isParsingArgv, s.value.next, s.value.options);
        if rest.Ok? {
          CollapsedCons(alts, s.value.patterns, rest.value.0);
        }
      }
    } else {
      assert alts + CollapsedAll([]) == alts;
    }
  }

  /** One `|` of that loop: the sequence after it is read, collapsed, and the
      loop goes on after it. */
  lemma AlternativesBar(tokens: seq<string>, isParsingArgv: bool, i: nat, options: seq<Pattern>, alts: seq<Pattern>)
    requires i <= |tokens| && AllOptions(options) && CurrentAt(tokens, i) == "|"
    requires ParseSeq(tokens, isParsingArgv, i + 1, options).Ok?
    ensures var s := ParseSeq(tokens, isParsingArgv, i + 1, options).value;
      AlternativesFrom(tokens, isParsingArgv, i, options, alts)
      == AlternativesFrom(tokens, isParsingArgv, s.next, s.options, alts + [CollapseToRequired(s.patterns)])
    ensures var s := ParseSeq(tokens, isParsingArgv, i + 1, options).value;
      var rest := SeqsAfterBars(tokens, isParsingArgv, s.next, s.options);
      SeqsAfterBars(tokens, isParsingArgv, i, options)
      == (if rest.Err? then Err(rest.error) else Ok(([s.patterns] + rest.value.0, rest.value.1, rest.value.2)))
  {
  }

  lemma CollapsedCons(alts: seq<Pattern>, ps: seq<Pattern>, seqs: seq<seq<Pattern>>)
    ensures alts + [CollapseToRequired(ps)] + CollapsedAll(seqs) == alts + CollapsedAll([ps] + seqs)
  {
    assert ([ps] + seqs)[1..] == seqs;
  }

  /** Once a `|` has been seen the alternatives end up in one Either, whose
      children are those collected so far and then the collapsed sequences
      after each `|`. */
  lemma AlternativesEither(tokens: seq<string>, isParsingArgv: bool, i: nat, options: seq<Pattern>, alts: seq<Pattern>)
    requires i <= |tokens| && AllOptions(options)
    requires |alts| >= 2 || (|alts| == 1 && CurrentAt(tokens, i) == "|")
    ensures var r := AlternativesFrom(tokens, isParsingArgv, i, options, alts);
      var b := SeqsAfterBars(tokens, isParsingArgv, i, options);
      r.Ok? ==>
        && b.Ok? && |r.value.patterns| == 1 && r.value.patterns[0].Either?
        && r.value.patterns[0].children == alts + CollapsedAll(b.value.0)
  {
    AlternativesShape(tokens, isParsingArgv, i, options, alts);
  }

  /** `parse_expr` hands back a lone sequence as it is; with a `|` after it,
      one Either whose alternatives are that sequence and every sequence
      after a `|`, each collapsed. */
  lemma ExprShape(tokens: seq<string>, isParsingArgv: bool, i: nat, options: seq<Pattern>)
    requires i <= |tokens| && AllOptions(options)
    ensures var r := ParseExpr(tokens, isParsingArgv, i, options);
      var s := ParseSeq(tokens, isParsingArgv, i, options);
      && (s.Err? ==> r == Err(s.error))
      && (s.Ok? && CurrentAt(tokens, s.value.next) != "|" ==> r == s)
      && (s.Ok? && CurrentAt(tokens, s.value.next) == "|" ==>
            var b := SeqsAfterBars(tokens, isParsingArgv, s.value.next, s.value.options);
            && (r.Ok? <==> b.Ok?)
            && (r.Err? ==> r.error == b.error)
            && (b.Ok? ==>
                  |b.value.0| >= 1 && r.value.next == b.value.1 && r.value.options == b.value.2
                  && r.value.patterns == [Either([CollapseToRequired(s.value.patterns)] + CollapsedAll(b.value.0))]))
  {
    var s := ParseSeq(tokens, isParsingArgv, i, options);
    if s.Ok? && CurrentAt(tokens, s.value.next) == "|" {
      AlternativesShape(tokens, isParsingArgv, s.value.next, s.value.options, [CollapseToRequired(s.value.patterns)]);
    }
  }

  /** Tokens left after the expression are reported, joined by spaces. */
  lemma UnexpectedEnding(tokens: seq<string>, options: seq<Pattern>)
    requires AllOptions(options)
    ensures var e := ParseExpr(tokens, false, 0, options);
      e.Ok? && e.value.next < |tokens| ==>
      ParsePattern(tokens, options) == Err(LanguageError("Unexpected ending: '" + Joined(tokens[e.value.next..], " ") + "'"))
  {
  }

  // ---------------------------------------------------------------------------
  // Properties of formal_usage

  /** The tokens `formal_usage` means to produce for the words from `ii` on:
      the program name becomes `) | (`, any other word stays. */
  function FormalTokens(parts: seq<string>, ii: nat): seq<string>
    requires 1 <= ii <= |parts|
    decreases |parts| - ii
  {
    if ii == |parts| then []
    else (if parts[ii] == parts[0] then [")", "|", "("] else [parts[ii]]) + FormalTokens(parts, ii + 1)
  }

  lemma WordsAfterSpace(s: string)
    ensures Words(" " + s, AnySpace) == Words(s, AnySpace)
  {
    assert (" " + s)[1..] == s;
  }

  lemma WordsOfWordThenSpace(w: string, s: string)
    requires w != [] && NoneIn(w, AnySpace)
    requires s != [] && s[0] == ' '
    ensures Words(w + s, AnySpace) == [w] + Words(s, AnySpace)
  {
    assert ' ' in AnySpace;
    assert s == " " + s[1..];
    assert w + s == w + [' '] + s[1..];
    WordsSeparated(w, ' ', s[1..], AnySpace);
    WordsOfWord(w, AnySpace);
    WordsAfterSpace(s[1..]);
  }

  /** A word written as " " + word, in front of text that starts with a space. */
  lemma WordsOfSpacedWord(w: string, rest: string)
    requires w != [] && NoneIn(w, AnySpace)
    requires rest != [] && rest[0] == ' '
    ensures Words(" " + w + rest, AnySpace) == [w] + Words(rest, AnySpace)
  {
    assert " " + w + rest == " " + (w + rest);
    WordsOfWordThenSpace(w, rest);
    WordsAfterSpace(w + rest);
  }

  /** The `) | (` written for the program name. */
  lemma WordsOfNewAlternative(text: string, rest: string)
    requires rest != [] && rest[0] == ' '
    requires text == " ) | (" + rest
    ensures Words(text, AnySpace) == [")", "|", "("] + Words(rest, AnySpace)
  {
    var r3 := " " + "(" + rest;
    var r2 := " " + "|" + r3;
    assert text == " " + ")" + r2;
    var w := Words(rest, AnySpace);
    assert Words(r3, AnySpace) == ["("] + w by {
      WordsOfSpacedWord("(", rest);
    }
    assert Words(r2, AnySpace) == ["|"] + Words(r3, AnySpace) by {
      WordsOfSpacedWord("|", r3);
    }
    assert Words(text, AnySpace) == [")"] + Words(r2, AnySpace) by {
      WordsOfSpacedWord(")", r2);
    }
    assert [")"] + (["|"] + (["("] + w)) == [")", "|", "("] + w;
  }

  /** The text from `ii` on, closed by ` )`, splits into those tokens and `)`. */
  lemma {:induction false} FormalFromWords(parts: seq<string>, ii: nat)
    requires 1 <= ii <= |parts|
    requires forall k :: 0 <= k < |parts| ==> parts[k] != [] && NoneIn(parts[k], AnySpace)
    decreases |parts| - ii
    ensures var t := FormalFrom(parts, ii) + " )";
      t[0] == ' ' && Words(t, AnySpace) == FormalTokens(parts, ii) + [")"]
  {
    if ii == |parts| {
      assert FormalFrom(parts, ii) + " )" == " " + ")";
      WordsOfWord(")", AnySpace);
      WordsAfterSpace(")");
    } else {
      FormalFromWords(parts, ii + 1);
      FormalFromWordsStep(parts, ii);
    }
  }

  /** One part of `formal_usage`: a new alternative or a spaced word in
      front of the text that follows. */
  lemma FormalFromWordsStep(parts: seq<string>, ii: nat)
    requires 1 <= ii < |parts|
    requires parts[ii] != [] && NoneIn(parts[ii], AnySpace)
    requires var rest := FormalFrom(parts, ii + 1) + " )";
      rest[0] == ' ' && Words(rest, AnySpace) == FormalTokens(parts, ii + 1) + [")"]
    ensures var t := FormalFrom(parts, ii) + " )";
      t[0] == ' ' && Words(t, AnySpace) == FormalTokens(parts, ii) + [")"]
  {
    var rest := FormalFrom(parts, ii + 1) + " )";
    var t := FormalFrom(parts, ii) + " )";
    var head := if parts[ii] == parts[0] then [")", "|", "("] else [parts[ii]];
    assert FormalTokens(parts, ii) + [")"] == head + (FormalTokens(parts, ii + 1) + [")"]);
    if parts[ii] == parts[0] {
      assert t == " ) | (" + rest;
      WordsOfNewAlternative(t, rest);
    } else {
      assert t == " " + parts[ii] + rest;
      WordsOfSpacedWord(parts[ii], rest);
    }
  }

  /** `formal_usage` turns `usage: prog a | prog b` into `( a ) | ( b )`:
      split again at whitespace, it is `(`, the tokens of each alternative
      with `) | (` between them, and `)`. */
  lemma FormalUsageWords(section: string)
    ensures var parts := WordsFrom(section, AnySpace, UsageStart(section));
      Words(FormalUsage(section), AnySpace)
      == ["("] + (if parts == [] then [] else FormalTokens(parts, 1)) + [")"]
  {
    var parts := WordsFrom(section, AnySpace, UsageStart(section));
    if UsageStart(section) <= |section| {
      WordsAreWords(section[UsageStart(section)..], AnySpace);
    }
    WordsOfWord("(", AnySpace);
    if parts == [] {
      assert FormalUsage(section) == "(" + " )";
      WordsOfWordThenSpace("(", " )");
      WordsAfterSpace(")");
      WordsOfWord(")", AnySpace);
    } else {
      FormalFromWords(parts, 1);
      var t := FormalFrom(parts, 1) + " )";
      assert FormalUsage(section) == "(" + t;
      WordsOfWordThenSpace("(", t);
    }
  }

  // ---------------------------------------------------------------------------
  // Properties of parse_argv

  /** argv yields only leaves: options, and arguments without a name that
      hold the token as a string. */
  predicate ArgvLeaves(ps: seq<Pattern>) {
    forall k :: 0 <= k < |ps| ==> ps[k].Option? || (ps[k].Argument? && ps[k].name == "" && ps[k].value.String?)
  }

  lemma ArgumentsOfLeaves(ts: seq<string>)
    ensures ArgvLeaves(ArgumentsOf(ts))
  {
  }

  lemma ArgvLeavesAppend(a: seq<Pattern>, b: seq<Pattern>)
    requires ArgvLeaves(a) && ArgvLeaves(b)
    ensures ArgvLeaves(a + b)
  {
    forall k | 0 <= k < |a + b|
      ensures (a + b)[k].Option? || ((a + b)[k].Argument? && (a + b)[k].name == "" && (a + b)[k].value.String?)
    {
      if k >= |a| {
        assert (a + b)[k] == b[k - |a|];
      }
    }
  }

  /** An option token of argv: `parse_long` or `parse_short`, then the rest. */
  lemma ArgvOptionStep(tokens: seq<string>, i: nat, options: seq<Pattern>, optionsFirst: bool, acc: seq<Pattern>)
    requires i < |tokens| && AllOptions(options)
    requires tokens[i] != "--" && DashFirst(tokens[i]) && tokens[i] != "-"
    ensures StartsWith(tokens[i], "-")
    ensures var p := if StartsWith(tokens[i], "--") then ParseLong(tokens, true, i, options) else ParseShort(tokens, true, i, options);
      ArgvFrom(tokens, i, options, optionsFirst, acc)
        == (if p.Err? then Err(p.error) else ArgvFrom(tokens, p.value.next, p.value.options, optionsFirst, acc + p.value.patterns))
      && (p.Ok? ==> ArgvLeaves(p.value.patterns))
  {
    assert StartsWith(tokens[i], "-");
    var r := ArgvFrom(tokens, i, options, optionsFirst, acc);
    if StartsWith(tokens[i], "--") {
      var p := ParseLong(tokens, true, i, options);
      assert r == (if p.Err? then Err(p.error) else ArgvFrom(tokens, p.value.next, p.value.options, optionsFirst, acc + p.value.patterns));
    } else {
      var p := ParseShort(tokens, true, i, options);
      assert r == (if p.Err? then Err(p.error) else ArgvFrom(tokens, p.value.next, p.value.options, optionsFirst, acc + p.value.patterns));
      ParseShortPerCharacter(tokens, true, i, options);
    }
  }

  lemma {:induction false} ArgvFromLeaves(tokens: seq<string>, i: nat, options: seq<Pattern>, optionsFirst: bool, acc: seq<Pattern>)
    requires i <= |tokens| && AllOptions(options) && ArgvLeaves(acc)
    decreases |tokens| - i
    ensures var r := ArgvFrom(tokens, i, options, optionsFirst, acc);
      r.Ok? ==> ArgvLeaves(r.value.patterns)
  {
    if i < |tokens| {
      var token := tokens[i];
      if token == "--" || (optionsFirst && (!DashFirst(token) || token == "-")) {
        ArgvRestAreArguments(tokens, i, options, optionsFirst, acc);
        ArgumentsOfLeaves(tokens[i..]);
        ArgvLeavesAppend(acc, ArgumentsOf(tokens[i..]));
      } else if DashFirst(token) && token != "-" {
        ArgvOptionStep(tokens, i, options, optionsFirst, acc);
        var p := if StartsWith(token, "--") then ParseLong(tokens, true, i, options) else ParseShort(tokens, true, i, options);
        if p.Ok? {
          ArgvLeavesAppend(acc, p.value.patterns);
          ArgvFromLeaves(tokens, p.value.next, p.value.options, optionsFirst, acc + p.value.patterns);
        }
      } else {
        var a := Argument("", FromString(token));
        ArgvPositional(tokens, i, options, acc);
        ArgvLeavesAppend(acc, [a]);
        ArgvFromLeaves(tokens, i + 1, options, optionsFirst, acc + [a]);
      }
    }
  }

  lemma ParseArgvLeaves(argv: seq<string>, options: seq<Pattern>, optionsFirst: bool)
    requires AllOptions(options)
    ensures ParseArgv(argv, options, optionsFirst).Ok? ==> ArgvLeaves(ParseArgv(argv, options, optionsFirst).value.patterns)
  {
    ArgvFromLeaves(argv, 0, options, optionsFirst, []);
  }

  /** `--` and, with `options_first`, the first positional end option
      parsing: every token from there on is an argument. */
  lemma ArgvRestAreArguments(tokens: seq<string>, i: nat, options: seq<Pattern>, optionsFirst: bool, acc: seq<Pattern>)
    requires i < |tokens| && AllOptions(options)
    requires tokens[i] == "--" || (optionsFirst && !DashFirst(tokens[i])) || (optionsFirst && tokens[i] == "-")
    ensures ArgvFrom(tokens, i, options, optionsFirst, acc) == Ok(Parsed(acc + ArgumentsOf(tokens[i..]), |tokens|, options))
  {
  }

  /** A positional token, with options allowed after it, is one argument. */
  lemma ArgvPositional(tokens: seq<string>, i: nat, options: seq<Pattern>, acc: seq<Pattern>)
    requires i < |tokens| && AllOptions(options)
    requires !DashFirst(tokens[i]) || tokens[i] == "-"
    ensures ArgvFrom(tokens, i, options, false, acc)
      == ArgvFrom(tokens, i + 1, options, false, acc + [Argument("", FromString(tokens[i]))])
  {
  }

  /** Without any token that starts with a dash, argv is all arguments, in
      order; a bare `-` is an argument too. */
  lemma {:induction false} ArgvWithoutOptions(tokens: seq<string>, i: nat, options: seq<Pattern>, optionsFirst: bool, acc: seq<Pattern>)
    requires i <= |tokens| && AllOptions(options)
    requires forall k :: i <= k < |tokens| ==> !DashFirst(tokens[k]) || tokens[k] == "-"
    decreases |tokens| - i
    ensures ArgvFrom(tokens, i, options, optionsFirst, acc) == Ok(Parsed(acc + ArgumentsOf(tokens[i..]), |tokens|, options))
  {
    if i == |tokens| {
      assert ArgumentsOf(tokens[i..]) == [];
      assert acc + [] == acc;
    } else if optionsFirst {
      ArgvRestAreArguments(tokens, i, options, optionsFirst, acc);
    } else {
      var a := Argument("", FromString(tokens[i]));
      ArgvWithoutOptions(tokens, i + 1, options, optionsFirst, acc + [a]);
      ArgvPositionalThen(tokens, i, options, acc);
    }
  }

  /** The step of `ArgvWithoutOptions` at a positional token. */
  lemma ArgvPositionalThen(tokens: seq<string>, i: nat, options: seq<Pattern>, acc: seq<Pattern>)
    requires i < |tokens| && AllOptions(options)
    requires !DashFirst(tokens[i]) || tokens[i] == "-"
    requires var a := Argument("", FromString(tokens[i]));
      ArgvFrom(tokens, i + 1, options, false, acc + [a]) == Ok(Parsed(acc + [a] + ArgumentsOf(tokens[i + 1..]), |tokens|, options))
    ensures ArgvFrom(tokens, i, options, false, acc) == Ok(Parsed(acc + ArgumentsOf(tokens[i..]), |tokens|, options))
  {
    ArgvPositional(tokens, i, options, acc);
    ArgumentsOfAt(tokens, i, acc);
  }

  lemma ArgumentsOfAt(tokens: seq<string>, i: nat, acc: seq<Pattern>)
    requires i < |tokens|
    ensures acc + [Argument("", FromString(tokens[i]))] + ArgumentsOf(tokens[i + 1..]) == acc + ArgumentsOf(tokens[i..])
  {
    assert tokens[i + 1..] == tokens[i..][1..];
  }

  // ---------------------------------------------------------------------------
  // Properties of is_argument_spec and Option::parse

  lemma ArgumentSpecExamples()
    ensures IsArgumentSpec("<file>") && IsArgumentSpec("FILE") && IsArgumentSpec("<>")
    ensures !IsArgumentSpec("") && !IsArgumentSpec("file") && !IsArgumentSpec("File") && !IsArgumentSpec("<file")
  {
    assert !IsUpper('f');
    assert "File"[1] == 'i' && !IsUpper('i');
  }

  /** A word starts at `k` when it is the start of the text or follows a delimiter. */
  predicate WordStart(s: string, k: nat)
    requires k < |s|
  {
    k == 0 || s[k - 1] in Delimiters
  }

  /** A word that neither is empty nor starts with a dash: an argument name. */
  predicate ArgumentWordAt(s: string, k: nat)
    requires k < |s|
  {
    WordStart(s, k) && s[k] !in Delimiters && s[k] != '-'
  }

  /** An argument name starts somewhere in `s[lo..end]`. */
  predicate ArgumentWordIn(s: string, lo: nat, end: nat)
    requires end <= |s|
    decreases end - lo
  {
    lo < end && (ArgumentWordAt(s, lo) || ArgumentWordIn(s, lo + 1, end))
  }

  /** `ArgumentWordIn` says that some position of the range starts an
      argument name. */
  lemma {:induction false} ArgumentWordInSome(s: string, lo: nat, end: nat)
    requires end <= |s|
    decreases end - lo
    ensures ArgumentWordIn(s, lo, end) <==> exists k :: lo <= k < end && ArgumentWordAt(s, k)
  {
    if lo < end {
      ArgumentWordInSome(s, lo + 1, end);
      if exists k :: lo <= k < end && ArgumentWordAt(s, k) {
        var k :| lo <= k < end && ArgumentWordAt(s, k);
        assert k == lo || (lo + 1 <= k < end && ArgumentWordAt(s, k));
      }
    }
  }

  /** On one line, the matches of `Option::parse` are the words between
      delimiters, and the argument count becomes 1 exactly when one of them
      is an argument name. */
  lemma {:induction false} OptionMatchesArgcount(s: string, p: nat, end: nat, acc: OptionParts)
    requires p <= end <= |s|
    requires forall k :: 0 <= k < end ==> s[k] !in LineTerminators
    requires p == 0 || (p <= end && s[p - 1] in Delimiters)
    requires acc.argcount == 0 || acc.argcount == 1
    decreases end - p, 1
    ensures OptionMatches(s, p, end, acc).argcount == 1 <==>
      acc.argcount == 1 || ArgumentWordIn(s, p, end)
  {
    if p < end {
      OptionMatchesArgcountStep(s, p, end, acc);
    } else {
      OptionMatchesArgcountAtEnd(s, p, end, acc);
    }
  }

  /** At the end of the line there is nothing left to match. */
  lemma OptionMatchesArgcountAtEnd(s: string, p: nat, end: nat, acc: OptionParts)
    requires p == end <= |s|
    ensures OptionMatches(s, p, end, acc) == acc && !ArgumentWordIn(s, p, end)
  {
    assert NextMatch(s, p, end).None?;
  }

  /** The step of `OptionMatchesArgcount` at the start of a word: what holds
      after the word's delimiter holds from the start of the word. */
  lemma {:induction false} OptionMatchesArgcountStep(s: string, p: nat, end: nat, acc: OptionParts)
    requires p < end <= |s|
    requires forall k :: 0 <= k < end ==> s[k] !in LineTerminators
    requires p == 0 || s[p - 1] in Delimiters
    requires acc.argcount == 0 || acc.argcount == 1
    decreases end - p, 0
    ensures OptionMatches(s, p, end, acc).argcount == 1 <==> acc.argcount == 1 || ArgumentWordIn(s, p, end)
  {
    var we := WordEnd(s, p, end);
    var acc' := MatchParts(s, p, end, acc);
    if we < end {
      calc {
        OptionMatches(s, p, end, acc).argcount == 1;
        { OptionMatchesAtWord(s, p, end, acc); }
        OptionMatches(s, we + 1, end, acc').argcount == 1;
        { assert s[we] in Delimiters;
          OptionMatchesArgcount(s, we + 1, end, acc'); }
        acc'.argcount == 1 || ArgumentWordIn(s, we + 1, end);
        { MatchPartsArgcount(s, p, end, acc); }
        acc.argcount == 1 || ArgumentWordAt(s, p) || ArgumentWordIn(s, we + 1, end);
        { ArgumentWordsOfOneWord(s, p, end); }
        acc.argcount == 1 || ArgumentWordIn(s, p, end);
      }
    } else {
      calc {
        OptionMatches(s, p, end, acc).argcount == 1;
        { OptionMatchesAtWord(s, p, end, acc); }
        acc'.argcount == 1;
        { MatchPartsArgcount(s, p, end, acc); }
        acc.argcount == 1 || ArgumentWordAt(s, p);
        { ArgumentWordsOfOneWord(s, p, end);
          assert !ArgumentWordIn(s, we + 1, end); }
        acc.argcount == 1 || ArgumentWordIn(s, p, end);
      }
    }
  }

  /** At the start of a word, the loop of `Option::parse` takes that word and
      goes on after the delimiter that ends it. */
  lemma {:induction false} OptionMatchesAtWord(s: string, p: nat, end: nat, acc: OptionParts)
    requires p < end <= |s|
    requires forall k :: 0 <= k < end ==> s[k] !in LineTerminators
    requires p == 0 || s[p - 1] in Delimiters
    ensures var we := WordEnd(s, p, end);
      var acc' := MatchParts(s, p, end, acc);
      OptionMatches(s, p, end, acc) == (if we == end then acc' else OptionMatches(s, we + 1, end, acc'))
  {
    var we := WordEnd(s, p, end);
    assert MatchesAt(s, p, end) by {
      forall k | p <= k < we
        ensures s[k] !in LineTerminators
      {
        assert k < end;
      }
    }
    assert NextMatch(s, p, end) == Some(p);
    OptionMatchesStepAt(s, p, end, acc, p);
    MatchPartsArgcount(s, p, end, acc);
  }

  /** `OptionMatchesStep` with the match position named. */
  lemma {:induction false} OptionMatchesStepAt(s: string, p: nat, end: nat, acc: OptionParts, q: nat)
    requires p <= end <= |s| && NextMatch(s, p, end) == Some(q)
    ensures var we := MatchEnd(s, q, end);
      var acc' := MatchParts(s, q, end, acc);
      OptionMatches(s, p, end, acc) == if we == end then acc' else OptionMatches(s, we + 1, end, acc')
  {
  }

  /** One match of the loop of `Option::parse`. */
  lemma OptionMatchesStep(s: string, p: nat, end: nat, acc: OptionParts)
    requires p <= end <= |s| && NextMatch(s, p, end).Some?
    ensures var q := NextMatch(s, p, end).value;
      var we := MatchEnd(s, q, end);
      var acc' := MatchParts(s, q, end, acc);
      OptionMatches(s, p, end, acc) == if we == end then acc' else OptionMatches(s, we + 1, end, acc')
  {
  }

  /** Without a further match the loop of `Option::parse` ends. */
  lemma OptionMatchesDone(s: string, p: nat, end: nat, acc: OptionParts)
    requires p <= end <= |s| && NextMatch(s, p, end).None?
    ensures OptionMatches(s, p, end, acc) == acc
  {
  }

  /** A match at the start of a word sets the argument count iff the word
      is an argument name. */
  lemma MatchPartsArgcount(s: string, p: nat, end: nat, acc: OptionParts)
    requires p < end <= |s|
    requires p == 0 || s[p - 1] in Delimiters
    ensures MatchEnd(s, p, end) == WordEnd(s, p, end)
    ensures MatchParts(s, p, end, acc).argcount == 1 <==> acc.argcount == 1 || ArgumentWordAt(s, p)
  {
    WordEndSkipsDashes(s, p, Dashes(s, p, end), end);
  }

  /** Inside one word only its first position can start an argument name. */
  lemma ArgumentWordsOfOneWord(s: string, p: nat, end: nat)
    requires p < end <= |s|
    ensures ArgumentWordIn(s, p, end) <==> ArgumentWordAt(s, p) || ArgumentWordIn(s, WordEnd(s, p, end) + 1, end)
  {
    var we := WordEnd(s, p, end);
    ArgumentWordInSome(s, p, end);
    ArgumentWordInSome(s, we + 1, end);
    forall k | p < k <= we && k < end
      ensures !ArgumentWordAt(s, k)
    {
      if k < we {
        assert s[k - 1] !in Delimiters;
      } else {
        assert s[k] in Delimiters;
      }
    }
  }

  lemma {:induction false} WordEndSkipsDashes(s: string, p: nat, d: nat, end: nat)
    requires p + d <= end <= |s|
    requires forall k :: p <= k < p + d ==> s[k] == '-'
    decreases d
    ensures WordEnd(s, p, end) == WordEnd(s, p + d, end)
  {
    if d > 0 {
      WordEndSkipsDashes(s, p + 1, d - 1, end);
    }
  }

  /** An option description whose option part runs over a line break. */
  const LineBreakDescription := "--speed=<kn>\n  "

  /** When the option part runs over a line break, the words after the break
      are never matched: `.` stops at `\n` and `$` does not match before it.
      Here `<kn>` comes before the double space, yet the option is a flag,
      so a `[default: …]` in its help text would not be read. */
  lemma ParseOptionStopsAtLineBreak()
    ensures var d := LineBreakDescription;
      var o := ParseOption(d);
      && 8 < OptionsEnd(d) && ArgumentWordAt(d, 8)
      && o.longOpt == "--speed" && o.argcount == 0 && o.value == Bool(false)
  {
    LineBreakOptionsEnd();
    LineBreakMatches();
    LineBreakArgumentWord();
    ParseOptionParts(LineBreakDescription);
  }

  /** `<kn>` starts an argument name at index 8, after the `=`. */
  lemma LineBreakArgumentWord()
    ensures ArgumentWordAt(LineBreakDescription, 8)
  {
    var d := LineBreakDescription;
    assert d[7] == '=' && d[8] == '<';
  }

  /** The names and the argument count of `Option::parse` are those its
      loop of matches leaves. */
  lemma ParseOptionParts(description: string)
    ensures var parts := OptionMatches(description, 0, OptionsEnd(description), OptionParts("", "", 0));
      var o := ParseOption(description);
      o.shortOpt == parts.shortOpt && o.longOpt == parts.longOpt && o.argcount == parts.argcount
  {
  }

  /** The option part of `LineBreakDescription` ends at index 13. */
  lemma LineBreakOptionsEnd()
    ensures OptionsEnd(LineBreakDescription) == 13
  {
    var d := LineBreakDescription;
    assert d[13..15] == "  ";
    forall j | 0 <= j < 13
      ensures !OccursAt(d, "  ", j)
    {
      assert d[j..j + 2][0] == d[j];
    }
  }

  /** The loop of matches on the option part of `LineBreakDescription`
      finds `--speed` and nothing after it. */
  lemma LineBreakMatches()
    ensures OptionMatches(LineBreakDescription, 0, 13, OptionParts("", "", 0)) == OptionParts("", "--speed", 0)
  {
    var d := LineBreakDescription;
    var init := OptionParts("", "", 0);
    LineBreakFirstWord();
    LineBreakNoMoreMatches();
    OptionMatchesStepAt(d, 0, 13, init, 0);
    var acc' := MatchParts(d, 0, 13, init);
    assert acc' == OptionParts("", "--speed", 0) by {
      assert d[2..7] == "speed";
    }
    OptionMatchesDone(d, 8, 13, acc');
  }

  /** `--speed` is the first match, and it ends at the `=`. */
  lemma LineBreakFirstWord()
    ensures var d := LineBreakDescription;
      && WordEnd(d, 0, 13) == 7 && MatchEnd(d, 0, 13) == 7 && Dashes(d, 0, 13) == 2
      && NextMatch(d, 0, 13) == Some(0)
  {
    var d := LineBreakDescription;
    assert d[7] in Delimiters;
    forall k | 0 <= k < 7 ensures d[k] !in Delimiters && d[k] !in LineTerminators { }
    assert MatchesAt(d, 0, 13);
  }

  /** After the `=`, every word runs into the `\n`, so nothing matches. */
  lemma LineBreakNoMoreMatches()
    ensures NextMatch(LineBreakDescription, 8, 13) == None
  {
    var d := LineBreakDescription;
    assert d[12] in LineTerminators;
    forall q | 8 <= q <= 12
      ensures !MatchesAt(d, q, 13)
    {
      forall k | q <= k < 13 ensures d[k] !in Delimiters { }
      assert WordEnd(d, q, 13) == 13;
    }
    assert NextMatch(d, 12, 13) == None;
    assert NextMatch(d, 11, 13) == None;
    assert NextMatch(d, 10, 13) == None;
    assert NextMatch(d, 9, 13) == None;
  }

  /** For a description whose option part is one line: it takes an argument
      iff an argument name appears before the first double space. */
  lemma ParseOptionArgcount(description: string)
    requires forall k :: 0 <= k < OptionsEnd(description) ==> description[k] !in LineTerminators
    ensures ParseOption(description).argcount == 1 <==>
      exists k :: 0 <= k < OptionsEnd(description) && ArgumentWordAt(description, k)
  {
    OptionMatchesArgcount(description, 0, OptionsEnd(description), OptionParts("", "", 0));
    ArgumentWordInSome(description, 0, OptionsEnd(description));
  }
}
