# docopt.cpp, modelled in Dafny

docopt turns the usage text of a command-line program into a parser. The
usage text is split into sections, and its `Usage:` section becomes a
pattern tree. A tree has leaves (Argument, Command, Option) and branches
(Required, Optional, OptionsShortcut, OneOrMore, Either). The user's argv is
tokenised into Options and positional Arguments, and the tree is matched
against them. The result is a map from every name in the usage text to a
`value`. A value is Empty, Bool, Long, String or a list of strings.

This project models the C++ port: the string utilities, the `value`
variant and its printer, the pattern tree and its backtracking matcher, the
tree expansion `transform` with `fix_repeating_arguments`, the usage-grammar
parser, the argv parser and the final success rule of `docopt_parse`. It
also models the Python runner that checks an executable against the
conformance fixtures. The repository has two copies of the library: the
newer one at the root and an older one under `src/` and `include/`. Where
they differ in `asLong` or `operator<<`, the model has both versions and a
lemma that shows the difference. They also differ in two scanners that the
model takes as parameters (see the end of "## Model").

Modules, one per file:

- `Errors` (errors.dfy) holds the error datatype that stands for the C++
  exceptions, and `Maybe`/`Result`.
- `DocoptUtil` (util.dfy) covers `starts_with`, `trim`, `split`, `partition`
  and `join`.
- `DocoptValue` (value.dfy) models `value` as a datatype. The `ValueCell`
  class models its constructors, copies and assignments of the kind tag
  and the union.
- `LegacyValue` (legacy_value.dfy) holds the older `asLong`.
- `ValueOutput` (value_output.dfy) covers both copies of `operator<<`, on an
  output-stream class.
- `Patterns` (patterns.dfy) covers the pattern tree, the `Option`
  constructor, `flat`, `collect_leaves`, `fix_identities`, `setChildren`
  and `hasValue`.
- `Matching` (matching.dfy) covers `single_match`, `LeafPattern::match` and
  the branch `match` methods. Each is a specification function and a
  method that updates `left` and `collected` in place.
- `MatchingProperties` (matching_properties.dfy) holds the properties of the
  matcher.
- `Expansion` (expansion.dfy) covers `transform` and
  `fix_repeating_arguments`.
- `TokenStream` (tokens.dfy) covers the `Tokens` cursor.
- `Grammar` (grammar.dfy) holds the specification functions of the
  parsers. This covers `parse_long`, `parse_short`, `parse_atom`,
  `parse_seq`, `parse_expr`, `parse_pattern`, `formal_usage`, `parse_argv`,
  `is_argument_spec` and the word loop of `Option::parse`. The module also
  holds their properties.
- `Parser` (parser.dfy) holds the same parsers as imperative methods over
  the `Tokens` cursor and the shared options vector. Each is proved equal
  to its specification function.
- `Docopt` (docopt.dfy) covers `isOptionSet`, `extras`, the pattern-tree
  construction and `docopt_parse`.
- `ConformanceRunner` (runner.dfy) covers `run_tests.py`: `parse_test`,
  argument splitting, the pass/fail classification of a case, the counters
  and the exit status.

Each imperative routine of the source is a method with loops. It is proved
against a specification function. The properties the source promises are
proved about that function.

## Model

| member | source | states |
|---|---|---|
| DocoptUtil.StartsWith | include/docopt_util.h:17-23 | true exactly when `prefix` is a prefix of `str`; false whenever `str` is shorter |
| DocoptUtil.FindFirstNotOf | include/docopt_util.h:33 | `find_first_not_of` from `pos`: the first index at or after `pos` outside `cs`, or none when every later character is in `cs` |
| DocoptUtil.FindFirstOf | include/docopt_util.h:48 | `find_first_of` from `pos`: the first index at or after `pos` inside `cs`, or none |
| DocoptUtil.FindLastNotOf | include/docopt_util.h:28-30 | `find_last_not_of`: none exactly when every character is in `cs`, else the last index outside `cs` |
| DocoptUtil.Find | include/docopt_util.h:62 | `find`: the first index where `sub` occurs, and none when it occurs nowhere |
| DocoptUtil.Trim | include/docopt_util.h:25-37 | "" exactly when every character is whitespace; otherwise the contiguous slice between the leading and the trailing whitespace runs, starting and ending on a non-whitespace character |
| DocoptUtil.TrimIdempotent | include/docopt_util.h:25-37 | trimming a trimmed string changes nothing |
| DocoptUtil.WordsAreWords | include/docopt_util.h:39-56 | every word of the reference split is non-empty and holds no separator |
| DocoptUtil.WordsSkip | include/docopt_util.h:45-46 | separators before a word do not change the words |
| DocoptUtil.SplitRound | include/docopt_util.h:44-53 | one turn of `split`'s loop: no word when only separators are left, otherwise the run from the first non-separator to the next separator, and the words after it |
| DocoptUtil.ScanIsWords | include/docopt_util.h:39-56 | the recursive statement of the loop yields the words from `pos` on |
| DocoptUtil.Split | include/docopt_util.h:39-56 | `split(str, pos)`: the words of `str` from `pos` on, at " \t\r\n\v\f", in order; whatever lies before `pos` is ignored |
| DocoptUtil.WordsSeparated | include/docopt_util.h:39-56 | a separator between two strings makes the words of the whole the words of each part, in order |
| DocoptUtil.WordsOfWord | include/docopt_util.h:39-56 | a non-empty string without separators is its own only word |
| DocoptUtil.Partition | include/docopt_util.h:58-74 | the three parts concatenate to `str`; without `point` the result is (str, "", ""); otherwise the middle is `point` and the first part ends at the first occurrence and contains no occurrence |
| DocoptUtil.PrefixNoOccurrence | include/docopt_util.h:62-69 | a prefix that ends before the first occurrence contains none |
| DocoptUtil.JoinedSnoc | include/docopt_util.h:81-85 | one more element adds the delimiter and that element at the end |
| DocoptUtil.JoinedLength | include/docopt_util.h:76-87 | n ≥ 1 elements joined are as long as the elements plus n - 1 delimiters |
| DocoptUtil.WordsOfJoined | include/docopt_util.h:39-87 | splitting words joined by a separator gives the words back |
| DocoptUtil.Join | include/docopt_util.h:76-87 | `join`: "" for no element; otherwise the elements separated by the delimiter |
| DocoptValue.Default | docopt_value.h:33 | the default value is Empty and false |
| DocoptValue.FromBool | docopt_value.h:121-126 | a Bool value, true as a condition, whose `asBool` is the argument |
| DocoptValue.FromLong | docopt_value.h:128-133 | a Long value, true as a condition, whose `asLong` is the argument |
| DocoptValue.FromInt | docopt_value.h:40 | the `int` constructor gives the same value as the `long` one |
| DocoptValue.FromString | docopt_value.h:135-140 | a String value, true as a condition, whose `asString` is the argument |
| DocoptValue.FromStringList | docopt_value.h:142-147 | a StringList value, true as a condition, whose `asStringList` is the argument |
| DocoptValue.ExactlyOneKind | docopt_value.h:51-57 | a value is true as a condition exactly when one kind test holds, and no test holds for Empty |
| DocoptValue.KindAsString | docopt_value.h:81-90 | every kind has a non-empty name without `;` |
| DocoptValue.ThrowIfNotKind | docopt_value.h:92-101 | succeeds exactly on the expected kind; otherwise fails with "Illegal cast to X; type is actually Y" |
| DocoptValue.AsBool | docopt_value.h:270-275 | the payload of a Bool; the cast error for every other kind |
| DocoptValue.AsString | docopt_value.h:295-300 | the payload of a String; the cast error for every other kind |
| DocoptValue.AsStringList | docopt_value.h:302-307 | the payload of a StringList; the cast error for every other kind |
| DocoptValue.AsLong | docopt_value.h:277-293 | the payload of a Long; a String is converted by `stol`, and fails when characters are left after the number; the cast error for the other kinds |
| DocoptValue.LeadingDigits | docopt_value.h:284 | the length of the leading run of decimal digits |
| DocoptValue.Stol | docopt_value.h:284 | `std::stol` after leading white space and a sign: `invalid_argument` without a digit, else a number and the index just past its last digit |
| DocoptValue.StolOfNumeral | docopt_value.h:284 | on white space, an optional sign, digits up to `e` and then the end or a non-digit, `stol` gives the signed value of those digits and the end index `e` |
| DocoptValue.AsLongOnString | docopt_value.h:277-293 | `asLong` of a String fails exactly when `stol` fails or stops before the end, and passes on the `stol` error |
| DocoptValue.KindOf | docopt_value.h:103 | each constructor sets its own `kind` tag |
| DocoptValue.Truthy | docopt_value.h:51 | a value is true as a condition exactly when it is not Empty |
| DocoptValue.Equal | docopt_value.h:310-332 | `==` holds exactly on equal values, and only between values of the same kind |
| DocoptValue.NotEqual | docopt_value.h:335-338 | `!=` holds exactly on different values |
| DocoptValue.EqualIsIdentity | docopt_value.h:309-338 | `==` is false on different kinds and holds exactly on equal values; `!=` is its negation |
| DocoptValue.AccessorsInvertConstructors | docopt_value.h:121-147 | each successful accessor gives back the payload the value was built from; a failing `throwIfNotKind` names a kind other than the value's |
| DocoptValue.CastMessageDeterminesKinds | docopt_value.h:92-101 | the cast message names its two kinds unambiguously |
| DocoptValue.ValueCell.constructor | docopt_value.h:33 | a new cell holds Empty |
| DocoptValue.ValueCell.OfBool | docopt_value.h:121-126 | the cell holds the Bool |
| DocoptValue.ValueCell.OfLong | docopt_value.h:128-133 | the cell holds the Long |
| DocoptValue.ValueCell.OfString | docopt_value.h:135-140 | the cell holds the String |
| DocoptValue.ValueCell.OfStringList | docopt_value.h:142-147 | the cell holds the StringList |
| DocoptValue.ValueCell.Copy | docopt_value.h:149-174 | a copy holds a value `==` to the original |
| DocoptValue.ValueCell.MoveAssign | docopt_value.h:230-238 | after the move assignment the cell holds what the source held |
| DocoptValue.ValueCell.Assign | docopt_value.h:224-228 | after the copy assignment the cell holds a value `==` to the source |
| LegacyValue.AsLong | include/docopt_value.h:257-262 | the older `asLong` succeeds only on a Long and fails with the cast error on every other kind, including a String |
| LegacyValue.AsLongAgreesOffStrings | include/docopt_value.h:257-262 | off Strings the two `asLong`s agree |
| LegacyValue.AsLongDiffersOnStrings | include/docopt_value.h:257-262 | on a numeric String the newer `asLong` converts and the older one fails |
| LegacyValue.AsLongOfFortyTwo | include/docopt_value.h:257-262 | on "42" the newer copy gives 42 and the older one an error |
| ValueOutput.NatDigitsValue | docopt.cpp:32-34 | the decimal digits of a number read back as that number |
| ValueOutput.StolOfDecimal | docopt.cpp:32-34 | `stol` reads a printed Long back whole |
| ValueOutput.Quoted | docopt.cpp:48 | each list element is written in double quotes |
| ValueOutput.Render | docopt.cpp:27-55 | the first character of the rendering tells the kind: t/f for a Bool, a digit or `-` for a Long, `"` for a String, `[` for a list, `n` for Empty |
| ValueOutput.RenderLongRoundTrip | docopt.cpp:32-34 | `asLong` of the printed Long, as a String, is the number |
| ValueOutput.RenderStringRoundTrip | docopt.cpp:35-37 | a String prints as itself between two double quotes |
| ValueOutput.OStream.Put | docopt.cpp:27-55 | writing appends to the stream's text |
| ValueOutput.WriteElement | docopt.cpp:42-49 | one list element: ", " unless it is the first, then the quoted string |
| ValueOutput.WriteList | docopt.cpp:38-50 | a list prints as `[` then the quoted elements separated by ", " then `]` |
| ValueOutput.WriteTo | docopt.cpp:27-55 | writes exactly the rendering of the value: true/false, the number, the quoted string, the list, or `null` |
| ValueOutput.Write | docopt.cpp:27-55 | `operator<<` returns its stream, to which it appended the rendering |
| ValueOutput.WriteLegacy | src/docopt.cpp:58-86 | the older `operator<<` writes the rendering to `std::cout` and leaves the stream it returns untouched |
| Patterns.CheckedName | docopt_private.h:123-156 | a leaf's `name()` is its name; on a branch `name()` throws "Logic error: name() shouldnt be called on a BranchPattern" |
| Patterns.CheckedValue | docopt_private.h:158-160 | a leaf's `getValue()` is its value; on a branch it throws the same logic error |
| Patterns.HasValue | docopt_private.h:118 | true exactly for a leaf whose value is not Empty |
| Patterns.MakeOption | docopt_private.h:243-258 | named by the long form when there is one, else by the short form; a `false` default of an option that takes an argument becomes Empty, and any other default is kept |
| Patterns.FlagOption | docopt_private.h:243-246 | the defaults: no argument, value `false` |
| Patterns.MakeCommand | docopt_private.h:229-231 | a command starts as `false` |
| Patterns.MakeArgument | docopt_private.h:100-103 | an argument starts Empty |
| Patterns.WithValue | docopt_private.h:121 | `setValue` changes the value and keeps the kind, the name and the option's forms and argcount |
| Patterns.SetChildren | docopt_private.h:181-183 | the same kind of branch with the new children |
| Patterns.Flat | docopt_private.h:105-173 | every pattern `flat` returns passes the filter; a pattern that passes gives only itself |
| Patterns.FlatMethod | docopt_private.h:162-173 | the loop over the children computes `Flat` |
| Patterns.Leaves | docopt_private.h:112-179 | `collect_leaves` yields only leaves, and a leaf yields itself |
| Patterns.CollectLeaves | docopt_private.h:112-179 | appends exactly the leaves of the pattern, in order, to `lst` |
| Patterns.LeavesAllPrefix | docopt_private.h:176-178 | one more child appends that child's leaves |
| Patterns.FlatLeavesIsLeaves | docopt_private.h:105-179 | `flat` with the leaf filter gives the same leaves as `collect_leaves` |
| Patterns.FlatOptionsAreLeaves | docopt_private.h:105-179 | every option `flat` finds is among the leaves |
| Patterns.FixIdentities | docopt_private.h:187-201 | a leaf is left alone; a branch keeps its kind and its number of children; the pattern set only grows, and a set whose entries sit under their own hash stays so |
| Patterns.FixChildrenStep | docopt_private.h:188-200 | one child: its subtree is fixed first, then it is replaced by the set's entry with its hash if there is one, and inserted otherwise |
| Patterns.FixIdentitiesMethod | docopt_private.h:187-201 | the C++ loop computes `FixIdentities` |
| Patterns.FixAllChildren | docopt_private.h:188-200 | the loop over the children computes `FixChildren` |
| Patterns.FixChild | docopt_private.h:189-199 | one round of that loop |
| Patterns.FixChildrenShares | docopt_private.h:187-201 | afterwards every child is exactly the set's entry under its hash, so children with equal hashes are one shared pattern |
| Patterns.FixIdentitiesInjective | docopt_private.h:187-201 | with a hash that tells different patterns apart, `fix_identities` changes nothing |
| Matching.FirstArgumentFrom | docopt_private.h:489-497 | the first Argument or Command of `left` from `i`, or none when there is none |
| Matching.FirstNamedFrom | docopt_private.h:444-446 | the first leaf with the given name from `i`, or none |
| Matching.SingleMatch | docopt_private.h:485-587 | a match is an index of `left` and a leaf with the pattern's name |
| Matching.ListOf | docopt_private.h:459-467 | a String gives a one-element list, a StringList its list, anything else the empty list |
| Matching.Collect | docopt_private.h:444-480 | a plain leaf appends the match; a counted or list leaf either appends one entry or changes only the value of the first entry of its name |
| Matching.LeafMatch | docopt_private.h:436-481 | succeeds exactly when `single_match` finds something; failure leaves `left` and `collected` untouched; success removes exactly one element of `left` |
| Matching.Match | docopt_private.h:589-670 | `left` never grows; when it keeps its length, neither it nor `collected` changed; a failed match changes nothing; it aborts only when the `fChildren.size() == 1` assert of a OneOrMore the match actually reaches fails, so a well-formed tree never aborts |
| Matching.EitherAborts | docopt_private.h:647-659 | an Either aborts exactly when the match of one of its children aborts; every child is tried before the minimum is taken, and a well-formed Either never aborts |
| Matching.RequiredFrom | docopt_private.h:589-603 | the children from `i` on, each on what the previous ones left; `left` never grows, and when it keeps its length nothing was collected |
| Matching.OptionalFrom | docopt_private.h:299-304 | every child is tried in turn, each on what the previous ones left, and the result is a success exactly when no child's match aborts |
| Matching.RepeatFrom | docopt_private.h:605-641 | the loop after the first success: the child is matched again until a round leaves `left` as it was; it succeeds unless a round aborts, and `left` never grows |
| Matching.EitherOutcomes | docopt_private.h:647-659 | the outcomes of the children that match, each on its own copy of `left` and `collected` |
| Matching.MinIndex | docopt_private.h:661-663 | `std::min_element`: the index of an outcome with the shortest `left`, and the first such |
| Matching.SingleMatchScan | docopt_private.h:485-587 | the three C++ scans compute `SingleMatch` |
| Matching.MatchLeaf | docopt_private.h:436-481 | `LeafPattern::match` computes `LeafMatch` |
| Matching.CollectMatch | docopt_private.h:444-480 | the update of `collected` computes `Collect` |
| Matching.CollectCounted | docopt_private.h:448-458 | a counted leaf appends the match with count 1, adds 1 to a Long entry of the same name, or resets a non-Long one to 1 |
| Matching.CollectList | docopt_private.h:459-478 | a list leaf appends the match with its strings, extends a list entry of the same name, or replaces a non-list one |
| Matching.MatchPattern | docopt_private.h:86 | the virtual `match` computes `Match` for every kind of pattern |
| Matching.MatchRequired | docopt_private.h:589-603 | `Required::match` computes `Match` |
| Matching.MatchOptional | docopt_private.h:299-304 | `Optional::match` (and so `OptionsShortcut`) computes `Match` |
| Matching.MatchOneOrMore | docopt_private.h:605-641 | `OneOrMore::match` computes `Match` |
| Matching.MatchEither | docopt_private.h:643-670 | `Either::match` computes `Match` |
| Matching.EitherRound | docopt_private.h:649-659 | one child of the Either loop adds its outcome when it matches, and stops the loop exactly when that child's match aborts |
| MatchingProperties.ArgumentTakesFirstArgument | docopt_private.h:485-500 | an Argument matches exactly when `left` holds an Argument; it takes the first one, under its own name with that element's value |
| MatchingProperties.CommandLooksAtFirstArgumentOnly | docopt_private.h:502-519 | a Command matches exactly when the first Argument of `left` has the command's name as its value, and then becomes `true` |
| MatchingProperties.OptionTakesFirstOfItsName | docopt_private.h:577-587 | an Option matches exactly when a leaf of its name is in `left`, and takes the first such leaf itself |
| MatchingProperties.LeafMatchRemovesOne | docopt_private.h:436-443 | a leaf match erases exactly one element: `left` afterwards plus that element is `left` before, as a multiset |
| MatchingProperties.CountedLeafAddsOne | docopt_private.h:448-458 | a match of a counted leaf raises its name's count by exactly one and leaves every other name's count alone |
| MatchingProperties.ListLeafAppends | docopt_private.h:459-478 | a match of a list leaf appends the matched strings to its name's list and leaves every other name's list alone |
| MatchingProperties.MatchConsumes | docopt_private.h:589-670 | every match leaves a sub-multiset of `left`: nothing is added, only consumed |
| MatchingProperties.RequiredConsumes | docopt_private.h:589-603 | the same for Required |
| MatchingProperties.OptionalConsumes | docopt_private.h:299-304 | the same for Optional |
| MatchingProperties.RepeatConsumes | docopt_private.h:605-641 | the same for OneOrMore |
| MatchingProperties.EitherConsumes | docopt_private.h:647-659 | the same for every outcome of an Either |
| MatchingProperties.RequiredOfOne | docopt_private.h:589-603 | a Required of one child matches as that child, and is well formed when the child is |
| MatchingProperties.RequiredStopsAtFailingChild | docopt_private.h:589-603 | when a child of a Required fails without aborting, the children after it are not looked at and the Required fails leaving `left` and `collected` as they were |
| MatchingProperties.UnreachedOneOrMoreDoesNotAbort | docopt_private.h:589-607 | a usage with the choice between `x -ab...` and `y`, and argv `y`: the tree holds a OneOrMore of two children, yet the match succeeds, since the failing command `x` keeps the matcher from reaching it |
| MatchingProperties.OptionalAlwaysMatches | docopt_private.h:299-304 | Optional and OptionsShortcut succeed exactly when they do not abort, so a well-formed one always succeeds |
| MatchingProperties.OneOrMoreIffChild | docopt_private.h:605-641 | a OneOrMore without exactly one child aborts, changing nothing; otherwise it succeeds exactly when its child matches once and no round aborts; a well-formed one succeeds exactly when its child matches |
| MatchingProperties.OneOrMoreSaturates | docopt_private.h:614-630 | after a successful OneOrMore, one more match of the child consumes nothing and collects nothing |
| MatchingProperties.RepeatSaturates | docopt_private.h:614-630 | the repetition stops only where the child no longer changes `left` |
| MatchingProperties.MinOfSuccessful | docopt_private.h:661-663 | the minimum over the successful outcomes is the first child outcome with the shortest `left` |
| MatchingProperties.EitherOutcomesAreSuccessful | docopt_private.h:647-659 | the outcomes Either keeps are the successful child outcomes, in order |
| MatchingProperties.FirstShortestUnique | docopt_private.h:661-663 | the first shortest outcome is unique |
| MatchingProperties.ShortestAmongChildren | docopt_private.h:661-663 | the first shortest of the child outcomes is the first shortest successful child |
| MatchingProperties.EitherPicksFirstShortest | docopt_private.h:643-670 | Either aborts exactly when one child aborts; otherwise it succeeds exactly when one child matches, and then gives the outcome of the first child whose match leaves the shortest `left`; when it fails it changes nothing |
| Expansion.FirstBranch | docopt_private.h:346-349 | `find_if` for a branch: none exactly when the group holds only leaves, else the first branch |
| Expansion.Without | docopt_private.h:357-358 | erasing the found branch shortens the group by one |
| Expansion.NextGroupsLighter | docopt_private.h:360-386 | every group that replaces a group is lighter by the weight measure, so the expansion ends |
| Expansion.WithoutWeight | docopt_private.h:357-358 | the weight of a group is that of the group without the branch plus the branch's own |
| Expansion.ReplacementLighter | docopt_private.h:360-386 | each replacement group weighs less than the branch plus the rest of the group |
| Expansion.ExpandStep | docopt_private.h:343-387 | one round: a group of leaves is a result, otherwise its replacement groups are expanded |
| Expansion.ExpandListAppend | docopt_private.h:339-342 | expanding a queue of groups is expanding its parts in order |
| Expansion.ExpandBranchFree | docopt_private.h:335-391 | every group `transform` yields holds only leaves |
| Expansion.ExpandOfBranchFree | docopt_private.h:351-354 | a group of leaves expands to itself alone |
| Expansion.EitherExpandsEachAlternative | docopt_private.h:361-369 | an Either gives one group per alternative |
| Expansion.OneOrMoreExpandsTwice | docopt_private.h:370-377 | a OneOrMore of leaves gives its children twice over |
| Expansion.Queue | docopt_private.h:360-386 | appends the replacement groups of the found branch to the queue |
| Expansion.KeepRound | docopt_private.h:351-354 | moving a finished group to the result keeps the multiset of final groups and shortens the work |
| Expansion.ExpandRound | docopt_private.h:355-386 | replacing a group by its replacements keeps the multiset of final groups and shortens the work |
| Expansion.TransformRound | docopt_private.h:343-388 | one round of `transform`'s loop keeps the final groups, keeps every result group free of branches, and shortens the work |
| Expansion.Transform | docopt_private.h:335-391 | `transform` yields, up to order, exactly the fully expanded groups, each of them free of branches |
| Expansion.Counted | docopt_private.h:404-431 | a repeated Command or flag gets the count 0; a repeated Argument or valued Option a list: kept when it is one, its default split at whitespace when that is a string, else empty; name and kind are kept |
| Expansion.CountedIdempotent | docopt_private.h:404-431 | fixing a leaf twice is fixing it once |
| Expansion.Fixed | docopt_private.h:393-434 | the tree with every leaf of the set fixed and everything else left alone; a branch keeps its kind and its number of children |
| Expansion.ReplacedAfterFixed | docopt_private.h:396-433 | fixing one more leaf everywhere is fixing the larger set |
| Expansion.FixedNothing | docopt_private.h:393-434 | fixing no leaf changes nothing |
| Expansion.RepeatedAmong | docopt_private.h:398-401 | the leaves among the first `k` elements of a group that occur more than once in it |
| Expansion.RepeatedIn | docopt_private.h:395-401 | the leaves that occur more than once in some group |
| Expansion.RepeatedInSameGroups | docopt_private.h:395-401 | the repeated leaves do not depend on the order of the groups |
| Expansion.OneOrMoreLeavesRepeat | docopt_private.h:370-377 | every leaf under a OneOrMore of leaves counts as repeated |
| Expansion.CountLeaf | docopt_private.h:404-431 | the C++ branch on the leaf's class computes `Counted` |
| Expansion.FixGroup | docopt_private.h:396-433 | one group's loop fixes its repeated leaves throughout the tree |
| Expansion.FixRepeatingArguments | docopt_private.h:393-434 | the tree with every leaf repeated in some expanded group fixed |
| Expansion.Fix | docopt_private.h:146-151 | `fix()`: `fix_identities`, then `fix_repeating_arguments` on the shared tree |
| Grammar.IsArgumentSpec | docopt.cpp:188-199 | true exactly for a non-empty token that is `<…>` or made only of upper-case letters |
| Grammar.ArgumentSpecExamples | docopt.cpp:188-199 | `<file>`, `FILE` and `<>` are argument specs; "", `file`, `File` and `<file` are not |
| Grammar.WithNameMembers | docopt.cpp:224-228 | the options found by exact name are exactly the listed options with that name, by the long form for `parse_long` and by the short form for `parse_short` (docopt.cpp:299-303) |
| Grammar.WithLongPrefixMembers | docopt.cpp:231-238 | the options found by prefix are exactly those with a non-empty long form that starts with the token |
| Grammar.LongOptions | docopt.cpp:201-208 | the long forms of the options, one per option, in order |
| Grammar.Given | docopt.cpp:273-275 | in argv, the option takes the value given or `true`; in the usage it is left as declared |
| Grammar.ParseLong | docopt.cpp:210-280 | on success exactly one Option, at least one token consumed, and the option list only extended |
| Grammar.ParseLongUnknown | docopt.cpp:247-255 | an unknown long option is appended to the option list with no short form, taking an argument exactly when the token holds `=` |
| Grammar.ParseLongNotUnique | docopt.cpp:242-246 | two or more candidates raise "'--x' is not a unique prefix: …" |
| Grammar.PrefixesOnlyInArgv | docopt.cpp:231-238 | in the usage only exact long names match; prefixes count only in argv |
| Grammar.ParseLongArgumentErrors | docopt.cpp:257-272 | a flag given `=value` raises "must not have an argument"; a valued option at the end of argv or before "--" or "" raises "requires an argument" |
| Grammar.ParseLongArgvValue | docopt.cpp:256-276 | in argv the option takes the text after `=`, else `true` for a flag, else the next token, which it consumes |
| Grammar.ParseShort | docopt.cpp:282-344 | on success at least one token consumed and the option list only extended |
| Grammar.ParseShortArgvValue | docopt.cpp:282-344 | in argv, every Option before the last is a flag holding `true`; the last one is also a flag, or takes the rest of the token after its character, or, when that is empty, the next token, which it consumes |
| Grammar.ParseShortErrors | docopt.cpp:305-330 | every error names a character of the token; for the first character, two or more options with that short form raise "-x is specified ambiguously N times", and a valued option at the end of the token with no next token, or before "" or "--", raises "-x requires an argument" |
| Grammar.ShortsFrom | docopt.cpp:295-341 | the loop over the characters keeps what it has built and only extends the option list |
| Grammar.ShortsFromAt | docopt.cpp:295-341 | one character in full: an ambiguous short form is an error; an unknown one is appended to the option list as a flag; a flag goes on with the next character; a valued option takes the rest of the token, else the next token unless that is missing, "" or "--", which is the "requires an argument" error |
| Grammar.ShortsFromShape | docopt.cpp:295-341 | in argv the loop builds flags holding `true`, possibly ended by one valued option whose value is the rest of the token or the next token, and the position moves past that token only in the second case |
| Grammar.ShortsFromShapeStops | docopt.cpp:305-338 | the case of `ShortsFromShape` where the loop stops at a valued or ambiguous option: a successful result ends with that option taking the rest of the token or the next token |
| Grammar.ShortsFromErrors | docopt.cpp:305-330 | an error of the loop is the ambiguity or the missing-argument error of one of the token's characters |
| Grammar.ShortsStep | docopt.cpp:295-341 | one character gives one Option with that short form; it stops the loop only when the option takes the rest of the token as its argument |
| Grammar.ShortsFromPerCharacter | docopt.cpp:295-341 | the k-th Option built has the short form of the k-th character after `-` |
| Grammar.ParseShortPerCharacter | docopt.cpp:282-344 | `-abc` gives Options `-a`, `-b`, … in order, one per character while none takes an argument |
| Grammar.CollapseToRequired | docopt.cpp:419-425 | one pattern is kept as it is; anything else is wrapped in Required |
| Grammar.CollapseToEither | docopt.cpp:427-433 | one pattern is kept as it is; anything else is wrapped in Either |
| Grammar.ParseAtom | docopt.cpp:348-393 | on success at least one token consumed and the option list only extended |
| Grammar.UnclosedBracket | docopt.cpp:357-378 | a `[` or `(` whose expression is followed by the wrong token raises "Mismatched '['" or "Mismatched '('"; at the end of the tokens `pop` throws `out_of_range` |
| Grammar.SeqFrom | docopt.cpp:401-414 | the loop of `parse_seq` keeps what it has built and only extends the option list |
| Grammar.ParseSeq | docopt.cpp:395-417 | never moves backwards and only extends the option list |
| Grammar.SeqStops | docopt.cpp:401-405 | the sequence ends, giving back what it has built, at the end of the tokens and at `]`, `)` and `|` |
| Grammar.SeqAtom | docopt.cpp:407-413 | an atom followed by `...` becomes one OneOrMore of its patterns and the `...` is consumed; any other atom is spliced in; what was built stays in front, and an atom's error is the result |
| Grammar.AlternativesFrom | docopt.cpp:447-451 | the `|` loop only extends the option list |
| Grammar.SeqsAfterBars | docopt.cpp:447-451 | the sequences read after each `|`: none exactly when the next token is not `|`, and afterwards the next token is not `|` |
| Grammar.AlternativesBar | docopt.cpp:447-451 | one `|` of the loop: its sequence, collapsed to Required, is the next alternative |
| Grammar.AlternativesShape | docopt.cpp:444-453 | the `|` loop succeeds exactly when reading the sequences after the bars does, with the same error; its result is one Either-collapse of the alternatives already read followed by each of those sequences collapsed to Required |
| Grammar.AlternativesEither | docopt.cpp:444-453 | with two alternatives, or one followed by `|`, the result is a single Either whose children are the alternatives read followed by each later sequence collapsed |
| Grammar.ParseExpr | docopt.cpp:435-454 | never moves backwards and only extends the option list |
| Grammar.ExprShape | docopt.cpp:435-454 | an error of the first sequence is the result; without `|` the expression is that sequence; with one it is a single Either whose children are the first sequence and each sequence after a `|`, each collapsed to Required, and it fails exactly when one of those later sequences does, with its error |
| Grammar.ParsePattern | docopt.cpp:456-466 | the result is a Required, and the option list is only extended |
| Grammar.UnexpectedEnding | docopt.cpp:461-462 | tokens left after the expression raise "Unexpected ending: '…'", naming the rest joined by spaces |
| Grammar.FormalUsageWords | docopt.cpp:469-485 | the words of the formal usage are `(`, the words after `usage:` with every repetition of the program name replaced by `)`, `|`, `(`, and `)` |
| Grammar.FormalFromWords | docopt.cpp:474-483 | the same, for the words from `ii` on |
| Grammar.ArgumentsOf | docopt.cpp:503 | every token becomes an unnamed positional Argument holding it |
| Grammar.ArgvFrom | docopt.cpp:497-519 | the loop of `parse_argv` consumes all of argv and keeps what it has built |
| Grammar.ParseArgv | docopt.cpp:487-522 | the option list stays a list of Options |
| Grammar.ArgvRestAreArguments | docopt.cpp:500-515 | after "--", or at the first positional with `options_first`, every remaining token becomes an Argument |
| Grammar.ArgvPositional | docopt.cpp:516-518 | without `options_first` a positional token becomes one Argument and parsing goes on |
| Grammar.ArgvOptionStep | docopt.cpp:505-510 | a token starting with "--" goes to `parse_long`, any other starting with `-` (except `-` itself) to `parse_short`, and their errors end `parse_argv` |
| Grammar.ArgvWithoutOptions | docopt.cpp:497-519 | an argv without option tokens becomes exactly its Arguments |
| Grammar.ArgvFromLeaves | docopt.cpp:497-519 | `parse_argv` yields only Options and unnamed String Arguments |
| Grammar.ParseArgvLeaves | docopt.cpp:487-522 | the same for the whole argv |
| Grammar.WordEnd | docopt_private.h:533 | the end of the lazy `(.*?)`: the first delimiter from `p`, or `end` |
| Grammar.NextMatch | docopt_private.h:534-536 | the next position where the regular expression finds a non-empty match |
| Grammar.NextMatchIsFirst | docopt_private.h:534-536 | that position has a match and no earlier one does; none means no match up to `end` |
| Grammar.Dashes | docopt_private.h:533 | `(-{1,2})?`: at most two leading dashes |
| Grammar.MatchParts | docopt_private.h:539-551 | one match sets the short form after one dash, the long form after two, and `argcount = 1` for a bare word |
| Grammar.OptionMatches | docopt_private.h:534-559 | the loop never turns `argcount` 1 back to 0 |
| Grammar.OptionMatchesArgcount | docopt_private.h:534-559 | the loop sets `argcount` to 1 exactly when some word of the option part starts without a dash |
| Grammar.LastClose | docopt_private.h:562-568 | the last `]` before `e`, or none |
| Grammar.OptionsEnd | docopt_private.h:527-531 | the option part ends at the first occurrence of a double space, or at the end of the text when there is none |
| Grammar.ParseOption | docopt_private.h:521-575 | an Option with `argcount` 0 or 1; a flag's value is `false`; a valued option takes the `[default: …]` text when there is one and is Empty otherwise |
| Grammar.ParseOptionArgcount | docopt_private.h:521-575 | on an option part without `\n` or `\r`, `argcount` is 1 exactly when a word of the option part, before the double space, starts without a dash |
| Grammar.ParseOptionStopsAtLineBreak | docopt_private.h:533-559 | on `--speed=<kn>` followed by a line break, the word `<kn>` is not read: `argcount` stays 0 and the value is `false` |
| TokenStream.CurrentAt | docopt.cpp:118-124 | the current token, or "" past the end |
| TokenStream.RestAt | docopt.cpp:126-132 | the tokens from the current one on, joined by single spaces; "" past the end |
| TokenStream.PopAt | docopt.cpp:134-136 | `at(index)`: the token when there is one, else `out_of_range` |
| TokenStream.RestAtSplits | docopt.cpp:126-132 | the rest, joined by spaces and split again, gives back the remaining tokens |
| TokenStream.Tokens.constructor | docopt.cpp:62-65 | the cursor at the first token |
| TokenStream.Tokens.Current | docopt.cpp:118-124 | the current token, or "" when there is none |
| TokenStream.Tokens.TheRest | docopt.cpp:126-132 | the remaining tokens joined by spaces, or "" |
| TokenStream.Tokens.HasMore | docopt.cpp:67-69 | `operator bool`: true exactly while a token is left |
| TokenStream.Tokens.Pop | docopt.cpp:134-136 | advances the index by one and returns the token there, or fails past the end |
| Parser.OptionList.constructor | docopt.cpp:577 | the vector holds the given options |
| Parser.OptionList.Push | docopt.cpp:249 | `emplace_back` appends one option |
| Parser.ExactLong | docopt.cpp:224-228 | the first loop of `parse_long` collects `WithName` by the long form |
| Parser.PrefixLong | docopt.cpp:231-238 | the prefix loop collects `WithLongPrefix` |
| Parser.SimilarLong | docopt.cpp:223-238 | both loops together collect `SimilarLong` |
| Parser.SimilarShort | docopt.cpp:299-303 | the loop of `parse_short` collects `WithName` by the short form |
| Parser.ParseLong | docopt.cpp:210-280 | same patterns, final cursor, option list and error as `Grammar.ParseLong` |
| Parser.ShortOption | docopt.cpp:296-340 | one character of `parse_short`, related to `ShortsFrom` before and after |
| Parser.ParseShort | docopt.cpp:282-344 | same as `Grammar.ParseShort` |
| Parser.ParseOptionToken | docopt.cpp:505-510 | `parse_long` for "--…", `parse_short` otherwise |
| Parser.ParseAtom | docopt.cpp:348-393 | same as `Grammar.ParseAtom` |
| Parser.ParseGroup | docopt.cpp:357-378 | the bracket branches of `parse_atom`, after the opening token is popped |
| Parser.ParseSeq | docopt.cpp:395-417 | same as `Grammar.ParseSeq` |
| Parser.SeqRound | docopt.cpp:402-413 | one atom of `parse_seq`, related to `SeqFrom` before and after |
| Parser.WithDots | docopt.cpp:408-413 | an atom followed by `...` becomes one OneOrMore and the `...` is popped; otherwise the atom and the position stay as they are |
| Parser.ParseExpr | docopt.cpp:435-454 | same as `Grammar.ParseExpr` |
| Parser.ParseAlternatives | docopt.cpp:444-453 | the `|` loop: same Either, index, option list and error as `Grammar.AlternativesFrom` |
| Parser.ParsePattern | docopt.cpp:456-466 | same pattern, option list and error as `Grammar.ParsePattern` |
| Parser.FormalUsage | docopt.cpp:469-485 | the loop builds `Grammar.FormalUsage` |
| Parser.RestAsArguments | docopt.cpp:502-504 | pops every remaining token as an Argument |
| Parser.ParseArgv | docopt.cpp:487-522 | same patterns, option list and error as `Grammar.ParseArgv` |
| Parser.ArgvOptionRound | docopt.cpp:505-510 | the round for an option token: its error ends `parse_argv`; else the cursor advances and the rest of the loop builds the same result |
| Parser.ArgvRound | docopt.cpp:498-518 | one round of `parse_argv`, related to `ArgvFrom` before and after |
| Parser.MatchRound | docopt_private.h:539-557 | one regular-expression match of `Option::parse` computes `MatchParts` |
| Parser.OptionWords | docopt_private.h:533-559 | the loop over the matches computes `OptionMatches` |
| Parser.OptionWordsRound | docopt_private.h:534-559 | one round of that loop, related to `OptionMatches` before and after |
| Parser.ParseOption | docopt_private.h:521-575 | `Option::parse` computes `Grammar.ParseOption` |
| Docopt.IsOptionSet | docopt.cpp:546-554 | on leaves, true exactly when a leaf with one of the names has a value; a branch makes `name()` throw |
| Docopt.Extras | docopt.cpp:556-564 | nothing happens unless help or version is asked for; `DocoptExitHelp` only when help is asked for, `DocoptExitVersion` only when version is and `--help` is not set; no other error but a branch name error |
| Docopt.ExtrasOutcome | docopt.cpp:556-564 | `--help` ends the run when asked for and set; otherwise `--version` does when asked for and set; otherwise nothing happens |
| Docopt.Hashes | docopt.cpp:580-583 | the set of the hashes of the options of the pattern |
| Docopt.Uncovered | docopt.cpp:589-595 | documented options whose hash no pattern option has, each hash once |
| Docopt.UncoveredComplete | docopt.cpp:589-595 | every documented option the pattern does not cover is represented among the children |
| Docopt.UniqueDocOptions | docopt.cpp:587-602 | the loop builds `Uncovered` |
| Docopt.FillShortcuts | docopt.cpp:585-604 | leaves are untouched and branches stay branches |
| Docopt.FillShortcutsFills | docopt.cpp:585-604 | every `[options]` node of the tree ends up with the uncovered options as children |
| Docopt.PatternTree | docopt.cpp:567-607 | no usage section raises "'usage:' (case-insensitive) not found.", two or more "More than one 'usage:'"; success gives a Required pattern and an extended option list |
| Docopt.CreatePatternTree | docopt.cpp:567-607 | `create_pattern_tree` computes `PatternTree` |
| Docopt.NamedValuesLast | docopt.cpp:640-646 | the result map has a key exactly for each leaf name, holding the value of the last leaf of that name |
| Docopt.NamedValuesOverride | docopt.cpp:640-646 | a collected value overrides the pattern's default of the same name; other names keep the pattern's |
| Docopt.AsLanguageError | docopt.cpp:619-623 | an option error of the usage becomes a `DocoptLanguageError`, other errors pass through |
| Docopt.AsArgumentError | docopt.cpp:626-630 | an option error of argv becomes a `DocoptArgumentError`, other errors pass through |
| Docopt.MatchOutcomeCases | docopt.cpp:634-656 | success exactly when the match succeeds and leaves nothing; leftovers raise "Unexpected argument: " with all of argv; a failed match raises "Arguments did not match expected patterns"; an aborted one raises the assertion failure, which a well-formed tree never does |
| Docopt.DocoptResult | docopt.cpp:609-657 | no usage section and two usage sections give their language errors |
| Docopt.DocoptSucceedsExactly | docopt.cpp:609-657 | `docopt_parse` returns a map exactly when the pattern tree is built, argv parses, neither help nor version ends the run, and the fixed pattern matches all of argv (no well-formedness of the whole tree is asked for); the map holds the pattern's leaves then the collected values |
| Docopt.ResultMap | docopt.cpp:637-648 | the two loops fill `NamedValues` |
| Docopt.MatchArgv | docopt.cpp:634-656 | the matching step computes `MatchOutcome` |
| Docopt.FinishParse | docopt.cpp:632-656 | `extras`, `fix()` and the match compute `AfterArgv`, with no check of the tree before matching |
| Docopt.DocoptParse | docopt.cpp:609-657 | `docopt_parse` computes `DocoptResult` |
| ConformanceRunner.LineEnd | run_tests.py:11 | the length of the first line, up to its newline |
| ConformanceRunner.StripComments | run_tests.py:11 | no `#` is left and nothing grows |
| ConformanceRunner.StripCommentsLine | run_tests.py:11 | on one line, everything from the first `#` on is cut |
| ConformanceRunner.StripCommentsNoHash | run_tests.py:11 | text without `#` is unchanged |
| ConformanceRunner.StripCommentsLines | run_tests.py:11 | each line is stripped on its own, and the newlines are kept |
| ConformanceRunner.DropFence | run_tests.py:12-13 | a leading `"""` is dropped, once; anything else is left alone |
| ConformanceRunner.DropFenceOnce | run_tests.py:12-13 | only one fence is dropped |
| ConformanceRunner.SplitOn | run_tests.py:15 | `str.split(sep)`: at least one piece, and no piece holds `sep` |
| ConformanceRunner.SplitOnJoined | run_tests.py:15 | joining the pieces with `sep` gives the text back |
| ConformanceRunner.Cleaned | run_tests.py:11-13 | the cleaned text holds no `#` |
| ConformanceRunner.Segments | run_tests.py:15 | at least one segment, and the segments joined by `r"""` are the cleaned text |
| ConformanceRunner.DocAndBody | run_tests.py:17 | the usage text is everything before the first `"""` and the body everything after it; without one, the segment is all usage text |
| ConformanceRunner.ArgLine | run_tests.py:20 | the first line of a case |
| ConformanceRunner.SplitCase | run_tests.py:20-22 | the program name has no space; it and the arguments make the trimmed first line; the expected text is the rest of the trimmed case |
| ConformanceRunner.DecodeCase | run_tests.py:20-23 | a case is made exactly when its expected text decodes, with the program name, the argument text and the decoded value |
| ConformanceRunner.ParseAll | run_tests.py:19-23 | one case per piece when all are made |
| ConformanceRunner.ParseAllMade | run_tests.py:19-23 | all are made exactly when each piece is, and the k-th result is that of the k-th piece |
| ConformanceRunner.ParseFixture | run_tests.py:16-25 | an unnamed fixture with the usage text before the first `"""` |
| ConformanceRunner.ParseFixtureCases | run_tests.py:16-25 | the pieces after each `$` but the first become the cases, in order, and the fixture fails exactly when one of them does |
| ConformanceRunner.ParseTest | run_tests.py:10-25 | one fixture per `r"""` segment, the first included |
| ConformanceRunner.ParseTestFixtures | run_tests.py:10-25 | parsing fails exactly when one segment does, and the k-th fixture is that of the k-th segment |
| ConformanceRunner.Args | run_tests.py:35 | the arguments are non-empty and hold no white space |
| ConformanceRunner.ArgsOfJoined | run_tests.py:35 | words joined by spaces split back into the same words |
| ConformanceRunner.Judge | run_tests.py:37-57 | success where an error was expected fails the case; an exit code other than 0 where success was expected fails it with that code; output that decodes to something else fails it; output that does not decode ends the run; every other case passes |
| ConformanceRunner.CasesFrom | run_tests.py:34-57 | every case is counted once, as a pass or as a failure, and the counters only grow |
| ConformanceRunner.ThenSegments | run_tests.py:31-57 | the counters only grow |
| ConformanceRunner.SegmentsFrom | run_tests.py:31-57 | the counters only grow |
| ConformanceRunner.RunOutcome | run_tests.py:27-72 | the exit status is 1 exactly when a case failed and 0 exactly when none did; passes plus failures is the number of cases |
| ConformanceRunner.SegmentsFromCount | run_tests.py:31-57 | when the run ends normally every fixture was parsed, and every case of every fixture was counted once |
| ConformanceRunner.CasesFromAllPass | run_tests.py:53-57 | the failure counter stays where it was exactly when every case passes |
| ConformanceRunner.AllPassCons | run_tests.py:31-57 | all fixtures pass exactly when the first does and the others do |
| ConformanceRunner.SegmentsFromAllPass | run_tests.py:31-57 | no failure is counted exactly when every fixture parses and every case passes |
| ConformanceRunner.RunPasses | run_tests.py:68-72 | the runner exits with status 0 exactly when the fixtures parse and every case passes |
| ConformanceRunner.RunCase | run_tests.py:35-57 | the runner's classification of one case computes `CaseOutcome` |
| ConformanceRunner.RunFixture | run_tests.py:34-57 | the loop over the cases computes `CasesFrom` |
| ConformanceRunner.RunSegment | run_tests.py:31-57 | one fixture, parsed and then run, related to `SegmentsFrom` before and after |
| ConformanceRunner.RunSegments | run_tests.py:31-57 | the loop over the fixtures computes `SegmentsFrom` |
| ConformanceRunner.RunTests | run_tests.py:27-72 | the whole script computes `RunOutcome` |

The older copy under `src/` and `include/` has the same matcher, tree code,
usage-grammar parser and argv parser as the root copy (src/docopt.cpp:97-1050),
so those rows cite the root copy. Its `Option::parse` spells the dash group
`(--|-)?` (src/docopt.cpp:176) where the root copy has `(-{1,2})?`; both
take two dashes when there are two. Four things differ:

- `asLong` has its own members (module `LegacyValue`).
- `operator<<` has its own member (`ValueOutput.WriteLegacy`).
- `Tokens::from_pattern` reads a word without `<…>` as `\S+`
  (src/docopt.cpp:466-471). The root copy reads it as `[^<>\s]+`
  (docopt.cpp:80-86), so `x>y` is one token in the older copy and two in the
  root copy.
- `parse_defaults` collects each option with an `sregex_iterator` over
  `(?:^|\n)[ \t]*(-(.|\n)*?)(?=\n[ \t]*-|$)` (src/docopt.cpp:909-938). The
  root copy instead splits at `(?:^|\n)[ \t]*(?=-{1,2})` with `regex_split`
  (docopt.cpp:524-544).

The model covers the last two only as the parameters `fromPattern` and
`defaults`, once for both copies, and has no second version of either.

## Left out

- The regular-expression scanners `parse_section` (docopt.cpp:163-186), `parse_defaults` (docopt.cpp:524-544) and `Tokens::from_pattern` (docopt.cpp:71-116) are not modelled. Their results are parameters of `Docopt.PatternTree` and `Docopt.DocoptResult`: the usage sections, the documented options and a function from the formal usage to its tokens. These parameters also stand for the older copy's differing `Tokens::from_pattern` (src/docopt.cpp:466-471) and `parse_defaults` (src/docopt.cpp:909-938), so the model does not tell the two copies apart there.
- The `docopt()` wrappers (docopt.cpp:659-685, src/docopt.cpp:1052-1077) are left out. They print the help, the version or the error to the console and call `exit`, which is I/O.
- `Pattern::hash()` and `hash_combine` are the parameter `hash`; which number they compute is not modelled. As in the C++ (`PatternPointerEquality`, docopt_private.h:59-68), two patterns with equal hashes count as the same pattern for `fix_identities` and for the set difference of `[options]`.
- Docopt.Uncovered: the children of `[options]` come in the order of the documentation. The C++ takes them from an `unordered_set`, whose order is unspecified.
- Expansion.Transform: the result is stated up to the order of the groups (a multiset). Nothing later depends on that order, which `Expansion.RepeatedInSameGroups` shows.
- C++ `shared_ptr` aliasing is not modelled. Patterns, `left` and `collected` are values. In the C++, a `setValue` on a matched argv Option is also seen through every other copy of `left` that shares the pointer, such as the copies the alternatives of an Either get. Likewise, when a counted or list leaf finds an entry of its name in `collected`, `(**same_name).setValue` (docopt_private.h:453-457, 472-477) changes that entry in place, so the change stays even when the Required around the leaf fails afterwards and hands back its caller's `collected` (docopt_private.h:589-603). The model discards such a change with the rest of the failed match.
- Patterns.FixIdentities: on values, sharing a pointer changes nothing that can be observed. Its contract states what the set of patterns holds afterwards, not pointer identity.
- Integers are unbounded: the 64-bit `long` of a value, `stol`'s `out_of_range` for numbers too large for `long`, and an overflow of a repeat count are not modelled.
- The state of `tokens` and of the options vector after an exception is not modelled. A `Result` error stands for the exception, and the callers never look at that state.
- The moved-from token that `Tokens::pop` leaves in its vector is not modelled. Nothing reads a token before the cursor again.
- The moved-from `value` after a move assignment is not modelled, and neither is the storage freed by `~value`.
- `assert(fChildren.size() == 1)` in `OneOrMore::match` (docopt_private.h:605-607) is modelled as an abort that the matcher hands up to `docopt_parse`, which turns it into the error `AssertionFailure`. It is raised only when the match reaches such a OneOrMore, as a build with assertions enabled checks it. The `NDEBUG` build, which matches only the first child, is not modelled. A tree is called well formed (`Patterns.WellFormed`) when every OneOrMore in it has exactly one child.
- Grammar.ParseOptionArgcount: the iff is stated only for an option part without `\n` or `\r`. In ECMAScript `.` does not match a line break and `$` does not match before one, so the C++ reads no word after a line break inside the option part; `Grammar.ParseOptionStopsAtLineBreak` shows such a description whose `argcount` stays 0.
- `std::regex`'s ECMAScript matching of `(-{1,2})?(.*?)([,= ]|$)` and `\[default: (.*)\]` is modelled by a hand-written scanner (`Grammar.OptionMatches`, `Grammar.DefaultFrom`). It follows the leftmost and lazy or greedy rules of those two patterns only.
- run_tests.py: the following are function parameters:
  - reading the fixture file;
  - `subprocess.check_output`, as `run`, with the exit code and the combined output;
  - `json.loads`, as `decode`;
  - `isinstance(expect, dict)`, as `isDict`.
- run_tests.py: the printed report (run_tests.py:59-66, 69 and 72) is not modelled. Only the counters and the exit status are.
- run_tests.py is a lazy generator: a fixture whose JSON fails to decode ends the run after the earlier fixtures were run. `ConformanceRunner.SegmentsFrom` parses each fixture just before running it, so it keeps that order. The effects of that partial run are only its counters.
- The white space of Python's `str.strip` and `str.split` is taken to be " \t\n\r\v\f" (`DocoptUtil.AnySpace`), the white space of a byte string in Python 2.
- run_tests.py:15 yields every `r"""` segment, including the text before the first one. The model follows the code and parses that segment as a fixture too. For a fixture file whose header has no `$`, that segment has no cases, and run_tests.py:32 skips it.
