/** The conformance runner run_tests.py: it cuts a fixture file into usage
    texts and test cases, runs the test program once per case and counts the
    cases that pass and fail.

    Reading the fixture file, the subprocess and printing are outside the
    model: the program is a function `run` from the usage text and the
    argument list to an exit code and the program's output, `json.loads` is a
    function `decode` that either gives a decoded value of an arbitrary type
    `J` or fails (Python raises, which ends the runner), and `isDict` tells
    whether a decoded value is a JSON object.
 */
module ConformanceRunner {
  import opened Errors
  import opened DocoptUtil

  /** The whitespace of Python 2's `str.strip()` and `str.split()`:
      " \t\n\r\v\f", the same six characters as AnySpace. */
  const PySpace: set<char> := AnySpace

  /** The fence that opens a usage text, and its raw-string form that starts a
      fixture. */
  const Fence: string := "\"\"\""
  const RawFence: string := "r\"\"\""

  // ---------------------------------------------------------------------------
  // re.compile('#.*$', re.M).sub('', raw)

  /** The index of the first newline of `s`, or |s|. */
  function LineEnd(s: string): (n: nat)
    ensures n <= |s|
    ensures forall k :: 0 <= k < n ==> s[k] != '\n'
    ensures n < |s| ==> s[n] == '\n'
  {
    if s == [] || s[0] == '\n' then 0 else 1 + LineEnd(s[1..])
  }

  /** Every '#' and the rest of its line up to (not including) the newline is
      removed; `.` does not match a newline and `$` matches just before one. */
  function StripComments(s: string): (r: string)
    ensures |r| <= |s|
    ensures forall k :: 0 <= k < |r| ==> r[k] != '#'
    decreases |s|
  {
    if s == [] then []
    else if s[0] == '#' then StripComments(s[LineEnd(s)..])
    else [s[0]] + StripComments(s[1..])
  }

  /** On one line, everything from the first '#' on is dropped. */
  lemma {:induction false} StripCommentsLine(s: string)
    requires '\n' !in s
    ensures StripComments(s) == s[..LeadingNotIn(s, {'#'})]
    decreases |s|
  {
    if s != [] {
      if s[0] == '#' {
        assert s[LineEnd(s)..] == [];
      } else {
        StripCommentsLine(s[1..]);
        assert s[..LeadingNotIn(s, {'#'})] == [s[0]] + s[1..][..LeadingNotIn(s[1..], {'#'})];
      }
    }
  }

  /** Text without '#' is left as it is. */
  lemma {:induction false} StripCommentsNoHash(s: string)
    requires '#' !in s
    ensures StripComments(s) == s
    decreases |s|
  {
    if s != [] {
      StripCommentsNoHash(s[1..]);
      assert s == [s[0]] + s[1..];
    }
  }

  /** A comment never runs past the end of its line: the lines are stripped
      one by one. */
  lemma {:induction false} StripCommentsLines(a: string, b: string)
    ensures StripComments(a + "\n" + b) == StripComments(a) + "\n" + StripComments(b)
    decreases |a|
  {
    var s := a + "\n" + b;
    if a == [] {
      assert s[1..] == b;
    } else if a[0] == '#' {
      var n := LineEnd(a);
      LineEndAppend(a, b);
      assert s[n..] == a[n..] + "\n" + b;
      StripCommentsLines(a[n..], b);
    } else {
      assert s[1..] == a[1..] + "\n" + b;
      StripCommentsLines(a[1..], b);
    }
  }

  lemma {:induction false} LineEndAppend(a: string, b: string)
    ensures LineEnd(a + "\n" + b) == LineEnd(a)
    decreases |a|
  {
    if a == [] {
    } else if a[0] != '\n' {
      assert (a + "\n" + b)[1..] == a[1..] + "\n" + b;
      LineEndAppend(a[1..], b);
    }
  }

  // ---------------------------------------------------------------------------
  // raw.strip(), the leading fence, raw.split('r"""')

  /** `if raw.startswith('"""'): raw = raw[3:]`: one leading fence goes, and
      nothing else. */
  function DropFence(t: string): (r: string)
    ensures StartsWith(t, Fence) ==> Fence + r == t
    ensures !StartsWith(t, Fence) ==> r == t
  {
    if StartsWith(t, Fence) then t[3..] else t
  }

  /** Only the first of two leading fences is dropped. */
  lemma DropFenceOnce(x: string)
    ensures DropFence(Fence + Fence + x) == Fence + x
  {
    assert (Fence + Fence + x)[..3] == Fence;
    assert (Fence + Fence + x)[3..] == Fence + x;
  }

  /** Python's `s.split(sep)` for a non-empty separator: the pieces between the
      occurrences of `sep`, found left to right, including empty ones. */
  function SplitOn(s: string, sep: string): (r: seq<string>)
    requires sep != []
    ensures |r| >= 1
    ensures forall i :: 0 <= i < |r| ==> forall j :: !OccursAt(r[i], sep, j)
    decreases |s|
  {
    var (before, found, after) := Partition(s, sep);
    if found == [] then [s] else [before] + SplitOn(after, sep)
  }

  /** Joining the pieces with the separator gives the text back. */
  lemma {:induction false} SplitOnJoined(s: string, sep: string)
    requires sep != []
    ensures Joined(SplitOn(s, sep), sep) == s
    decreases |s|
  {
    var (before, found, after) := Partition(s, sep);
    if found != [] {
      SplitOnJoined(after, sep);
      var rest := SplitOn(after, sep);
      assert SplitOn(s, sep) == [before] + rest;
      assert ([before] + rest)[1..] == rest;
    }
  }

  /** The text the fixtures are cut from: comments removed, whitespace at
      both ends stripped, one leading fence dropped. */
  function Cleaned(raw: string): (r: string)
    ensures '#' !in r
  {
    var t := Trim(StripComments(raw), PySpace);
    assert forall k :: 0 <= k < |t| ==> t[k] != '#' by {
      var s := StripComments(raw);
      if t != [] {
        forall k | 0 <= k < |t| ensures t[k] != '#' {
          assert t[k] == s[LeadingIn(s, PySpace) + k];
        }
      }
    }
    DropFence(t)
  }

  /** The segments `raw.split('r"""')`, the first one included. */
  function Segments(raw: string): (r: seq<string>)
    ensures |r| >= 1
    ensures Joined(r, RawFence) == Cleaned(raw)
  {
    SplitOnJoined(Cleaned(raw), RawFence);
    SplitOn(Cleaned(raw), RawFence)
  }

  // ---------------------------------------------------------------------------
  // One fixture: doc, cases

  datatype Case<J> = Case(prog: string, argv: string, expected: J)

  datatype Fixture<J> = Fixture(name: string, doc: string, cases: seq<Case<J>>)

  /** `doc, _, body = fixture.partition('"""')`. */
  function DocAndBody(segment: string): (r: (string, string))
    ensures Find(segment, Fence).Some? ==> r.0 + Fence + r.1 == segment
    ensures Find(segment, Fence).Some? ==> forall j :: !OccursAt(r.0, Fence, j)
    ensures Find(segment, Fence).None? ==> r == (segment, "")
  {
    var (doc, _, body) := Partition(segment, Fence);
    (doc, body)
  }

  /** The argument line of a case: the stripped case up to its first newline. */
  function ArgLine(piece: string): (r: string)
    ensures '\n' !in r
  {
    var line := Partition(Trim(piece, PySpace), "\n").0;
    NoOccurrence(line, '\n');
    line
  }

  /** A character that occurs nowhere as a one-character substring is not in
      the text. */
  lemma NoOccurrence(s: string, c: char)
    requires forall j :: !OccursAt(s, [c], j)
    ensures c !in s
  {
    forall k | 0 <= k < |s| ensures s[k] != c {
      assert !OccursAt(s, [c], k);
      assert s[k..k + 1] == [s[k]];
    }
  }

  /** `argv, _, expect = case.strip().partition('\n')` and then
      `prog, _, argv = argv.strip().partition(' ')`: the program name, the
      argument text and the text of the expectation. */
  function SplitCase(piece: string): (r: (string, string, string))
    ensures ' ' !in r.0
    ensures var line := Trim(ArgLine(piece), PySpace);
      line == r.0 + " " + r.1 || (line == r.0 && r.1 == "")
    ensures ArgLine(piece) + "\n" + r.2 == Trim(piece, PySpace)
      || (ArgLine(piece) == Trim(piece, PySpace) && r.2 == "")
  {
    var (_, _, expectText) := Partition(Trim(piece, PySpace), "\n");
    var (prog, _, argv) := Partition(Trim(ArgLine(piece), PySpace), " ");
    NoOccurrence(prog, ' ');
    (prog, argv, expectText)
  }

  /** One case, with `json.loads` applied to its expectation; `None` when that
      fails. */
  function DecodeCase<J>(piece: string, decode: string -> Maybe<J>): (r: Maybe<Case<J>>)
    ensures r.Some? <==> decode(SplitCase(piece).2).Some?
    ensures r.Some? ==> r.value.prog == SplitCase(piece).0 && r.value.argv == SplitCase(piece).1
    ensures r.Some? ==> Some(r.value.expected) == decode(SplitCase(piece).2)
  {
    var (prog, argv, expectText) := SplitCase(piece);
    match decode(expectText)
    case None => None
    case Some(e) => Some(Case(prog, argv, e))
  }

  /** What `caseOf` makes of each of `pieces[i..]`, in order; `None` as soon
      as it makes `None` of one (the exception that ends the generator). */
  function ParseAll<C>(pieces: seq<string>, i: nat, caseOf: string -> Maybe<C>): (r: Maybe<seq<C>>)
    requires i <= |pieces|
    ensures r.Some? ==> |r.value| == |pieces| - i
    decreases |pieces| - i
  {
    if i == |pieces| then Some([])
    else
      match caseOf(pieces[i])
      case None => None
      case Some(c) =>
        match ParseAll(pieces, i + 1, caseOf)
        case None => None
        case Some(rest) => Some([c] + rest)
  }

  /** The cases are there exactly when every piece makes one, and then case k
      is the one piece i + k makes. */
  lemma {:induction false} ParseAllMade<C>(pieces: seq<string>, i: nat, caseOf: string -> Maybe<C>)
    requires i <= |pieces|
    ensures ParseAll(pieces, i, caseOf).Some?
      <==> forall k :: i <= k < |pieces| ==> caseOf(pieces[k]).Some?
    ensures ParseAll(pieces, i, caseOf).Some? ==>
      forall k :: 0 <= k < |pieces| - i ==> caseOf(pieces[i + k]) == Some(ParseAll(pieces, i, caseOf).value[k])
    decreases |pieces| - i
  {
    if i < |pieces| {
      ParseAllMade(pieces, i + 1, caseOf);
      var r := ParseAll(pieces, i, caseOf);
      if r.Some? {
        var rest := ParseAll(pieces, i + 1, caseOf).value;
        assert r.value == [caseOf(pieces[i]).value] + rest;
        forall k | 0 < k < |pieces| - i
          ensures caseOf(pieces[i + k]) == Some(r.value[k])
        {
          assert r.value[k] == rest[k - 1];
          assert pieces[i + k] == pieces[(i + 1) + (k - 1)];
        }
      }
    }
  }

  function CaseMaker<J>(decode: string -> Maybe<J>): string -> Maybe<Case<J>> {
    piece => DecodeCase(piece, decode)
  }

  /** One fixture: no name, the usage text, and a case per `$`-piece of the
      body after the first; `None` when an expectation does not decode. */
  function ParseFixture<J>(segment: string, decode: string -> Maybe<J>): (r: Maybe<Fixture<J>>)
    ensures r.Some? ==> r.value.name == "" && r.value.doc == DocAndBody(segment).0
  {
    var (doc, body) := DocAndBody(segment);
    match ParseAll(SplitOn(body, "$"), 1, CaseMaker(decode))
    case None => None
    case Some(cases) => Some(Fixture("", doc, cases))
  }

  /** The pieces of a fixture's body, `body.split('$')`. */
  function Pieces(segment: string): (r: seq<string>)
    ensures |r| >= 1
  {
    SplitOn(DocAndBody(segment).1, "$")
  }

  /** A fixture is there exactly when every expectation decodes, and then it
      has a case per piece after the first, in order. */
  lemma ParseFixtureCases<J>(segment: string, decode: string -> Maybe<J>)
    ensures ParseFixture(segment, decode).Some?
      <==> forall k :: 1 <= k < |Pieces(segment)| ==> DecodeCase(Pieces(segment)[k], decode).Some?
    ensures ParseFixture(segment, decode).Some? ==>
      var cases := ParseFixture(segment, decode).value.cases;
      |cases| == |Pieces(segment)| - 1
      && forall k :: 0 <= k < |cases| ==> DecodeCase(Pieces(segment)[1 + k], decode) == Some(cases[k])
  {
    ParseAllMade(Pieces(segment), 1, CaseMaker(decode));
  }

  function FixtureMaker<J>(decode: string -> Maybe<J>): string -> Maybe<Fixture<J>> {
    segment => ParseFixture(segment, decode)
  }

  /** `parse_test(raw)` run to the end: a fixture per segment; `None` when an
      expectation does not decode. */
  function ParseTest<J>(raw: string, decode: string -> Maybe<J>): (r: Maybe<seq<Fixture<J>>>)
    ensures r.Some? ==> |r.value| == |Segments(raw)|
  {
    ParseAll(Segments(raw), 0, FixtureMaker(decode))
  }

  /** Every segment gives one fixture, the segment before the first `r"""`
      included, and every fixture is nameless. */
  lemma ParseTestFixtures<J>(raw: string, decode: string -> Maybe<J>)
    ensures ParseTest(raw, decode).Some?
      <==> forall k :: 0 <= k < |Segments(raw)| ==> ParseFixture(Segments(raw)[k], decode).Some?
    ensures ParseTest(raw, decode).Some? ==>
      var fixtures := ParseTest(raw, decode).value;
      forall k :: 0 <= k < |fixtures| ==>
        ParseFixture(Segments(raw)[k], decode) == Some(fixtures[k]) && fixtures[k].name == ""
  {
    ParseAllMade(Segments(raw), 0, FixtureMaker(decode));
  }

  /** The number of cases of the fixtures. */
  function CaseCount<J>(fixtures: seq<Fixture<J>>): nat {
    if fixtures == [] then 0 else |fixtures[0].cases| + CaseCount(fixtures[1..])
  }

  // ---------------------------------------------------------------------------
  // Running the cases

  /** `[ x for x in argv.split() if x ]`: the words of the argument text. */
  function Args(argv: string): (r: seq<string>)
    ensures forall k :: 0 <= k < |r| ==> r[k] != [] && NoneIn(r[k], PySpace)
  {
    WordsAreWords(argv, PySpace);
    Words(argv, PySpace)
  }

  /** Words joined by spaces split back into the same words. */
  lemma ArgsOfJoined(ts: seq<string>)
    requires forall k :: 0 <= k < |ts| ==> ts[k] != [] && NoneIn(ts[k], PySpace)
    ensures Args(Joined(ts, " ")) == ts
  {
    WordsOfJoined(ts, ' ', PySpace);
  }

  /** How a case fails: the three error messages of the runner. */
  datatype Failure =
    | ErrorNotRaised        // " ** an error was expected but it appeared to succeed!"
    | ShouldHaveSucceeded(code: int)  // "\n ** this should have succeeded! exit code = %s"
    | JsonMismatch          // " ** JSON does not match expected: %r"

  /** A case passes, fails, or `json.loads` raises on the program's output. */
  datatype Outcome = Passed | Failed(failure: Failure) | Raised

  /** The verdict on a case from the program's exit code and output: an error
      is expected exactly when the expectation is not a JSON object. */
  function Judge<J(==)>(expected: J, code: int, out: string, decode: string -> Maybe<J>, isDict: J -> bool): (r: Outcome)
    ensures r == Failed(ErrorNotRaised) <==> code == 0 && !isDict(expected)
    ensures (r.Failed? && r.failure.ShouldHaveSucceeded?) <==> code != 0 && isDict(expected)
    ensures r.Failed? && r.failure.ShouldHaveSucceeded? ==> r.failure.code == code
    ensures r == Failed(JsonMismatch)
      <==> code == 0 && isDict(expected) && decode(out).Some? && decode(out).value != expected
    ensures r == Raised <==> code == 0 && isDict(expected) && decode(out).None?
    ensures r == Passed
      <==> (code != 0 && !isDict(expected)) || (code == 0 && isDict(expected) && decode(out) == Some(expected))
  {
    var expectError := !isDict(expected);
    if code == 0 then
      if expectError then Failed(ErrorNotRaised)
      else
        match decode(out)
        case None => Raised
        case Some(jsonOut) => if expected != jsonOut then Failed(JsonMismatch) else Passed
    else if !expectError then Failed(ShouldHaveSucceeded(code))
    else Passed
  }

  /** The outcome of running the program on a case: `run` is the program,
      given the usage text and the argument words. */
  function CaseOutcome<J(==)>(doc: string, c: Case<J>, run: (string, seq<string>) -> (int, string),
                              decode: string -> Maybe<J>, isDict: J -> bool): Outcome
  {
    var (code, out) := run(doc, Args(c.argv));
    Judge(c.expected, code, out, decode, isDict)
  }

  /** The passes and failures counted so far. */
  datatype Tally = Tally(passes: nat, failures: nat)

  /** Running `cases[j..]` from tally `t`; `None` when the runner raises. */
  function CasesFrom<J(==)>(doc: string, cases: seq<Case<J>>, j: nat, t: Tally,
                            run: (string, seq<string>) -> (int, string),
                            decode: string -> Maybe<J>, isDict: J -> bool): (r: Maybe<Tally>)
    requires j <= |cases|
    ensures r.Some? ==> r.value.passes + r.value.failures == t.passes + t.failures + (|cases| - j)
    ensures r.Some? ==> r.value.passes >= t.passes && r.value.failures >= t.failures
    decreases |cases| - j
  {
    if j == |cases| then Some(t)
    else
      match CaseOutcome(doc, cases[j], run, decode, isDict)
      case Raised => None
      case Passed => CasesFrom(doc, cases, j + 1, Tally(t.passes + 1, t.failures), run, decode, isDict)
      case Failed(_) => CasesFrom(doc, cases, j + 1, Tally(t.passes, t.failures + 1), run, decode, isDict)
  }

  /** Going on with `segments[i..]` after a fixture's cases gave `m`. */
  function ThenSegments<J(==)>(m: Maybe<Tally>, segments: seq<string>, i: nat,
                               run: (string, seq<string>) -> (int, string),
                               decode: string -> Maybe<J>, isDict: J -> bool): (r: Maybe<Tally>)
    requires i <= |segments|
    ensures r.Some? ==> m.Some? && r.value.passes >= m.value.passes && r.value.failures >= m.value.failures
    decreases |segments| - i + 1, 0
  {
    match m
    case None => None
    case Some(t) => SegmentsFrom(segments, i, t, run, decode, isDict)
  }

  /** Parsing and running `segments[i..]` from tally `t`; `None` when the
      runner raises. */
  function SegmentsFrom<J(==)>(segments: seq<string>, i: nat, t: Tally,
                               run: (string, seq<string>) -> (int, string),
                               decode: string -> Maybe<J>, isDict: J -> bool): (r: Maybe<Tally>)
    requires i <= |segments|
    ensures r.Some? ==> r.value.passes >= t.passes && r.value.failures >= t.failures
    decreases |segments| - i, 1
  {
    if i == |segments| then Some(t)
    else
      match ParseFixture(segments[i], decode)
      case None => None
      case Some(f) =>
        ThenSegments(CasesFrom(f.doc, f.cases, 0, t, run, decode, isDict), segments, i + 1, run, decode, isDict)
  }

  /** How the runner ends: exit status 1 when a case failed and 0 otherwise,
      or an exception from `json.loads`. */
  datatype RunResult = Exited(status: int, passes: nat, failures: nat) | Aborted

  function RunOutcome<J(==)>(raw: string, run: (string, seq<string>) -> (int, string),
                             decode: string -> Maybe<J>, isDict: J -> bool): (r: RunResult)
    ensures r.Exited? ==> (r.status == 1 <==> r.failures > 0) && (r.status == 0 <==> r.failures == 0)
    ensures r.Exited? ==>
      ParseTest(raw, decode).Some? && r.passes + r.failures == CaseCount(ParseTest(raw, decode).value)
  {
    SegmentsFromCount(Segments(raw), 0, Tally(0, 0), run, decode, isDict);
    match SegmentsFrom(Segments(raw), 0, Tally(0, 0), run, decode, isDict)
    case None => Aborted
    case Some(t) => Exited(if t.failures > 0 then 1 else 0, t.passes, t.failures)
  }

  /** Every case run is counted once, as a pass or as a failure. */
  lemma {:induction false} SegmentsFromCount<J>(segments: seq<string>, i: nat, t: Tally,
                                                    run: (string, seq<string>) -> (int, string),
                                                    decode: string -> Maybe<J>, isDict: J -> bool)
    requires i <= |segments|
    ensures SegmentsFrom(segments, i, t, run, decode, isDict).Some? ==>
      ParseAll(segments, i, FixtureMaker(decode)).Some?
      && SegmentsFrom(segments, i, t, run, decode, isDict).value.passes
         + SegmentsFrom(segments, i, t, run, decode, isDict).value.failures
         == t.passes + t.failures + CaseCount(ParseAll(segments, i, FixtureMaker(decode)).value)
    decreases |segments| - i
  {
    if i < |segments| {
      match ParseFixture(segments[i], decode)
      case None =>
      case Some(f) =>
        var m := CasesFrom(f.doc, f.cases, 0, t, run, decode, isDict);
        assert SegmentsFrom(segments, i, t, run, decode, isDict) == ThenSegments(m, segments, i + 1, run, decode, isDict);
        if m.Some? {
          SegmentsFromCount(segments, i + 1, m.value, run, decode, isDict);
          var fs := ParseAll(segments, i + 1, FixtureMaker(decode));
          assert FixtureMaker(decode)(segments[i]) == Some(f);
          if fs.Some? {
            assert ParseAll(segments, i, FixtureMaker(decode)) == Some([f] + fs.value);
            assert ([f] + fs.value)[1..] == fs.value;
          }
        }
    }
  }

  /** A fixture whose every case passes. */
  predicate FixturePasses<J(==)>(f: Fixture<J>, run: (string, seq<string>) -> (int, string),
                                 decode: string -> Maybe<J>, isDict: J -> bool)
  {
    forall k :: 0 <= k < |f.cases| ==> CaseOutcome(f.doc, f.cases[k], run, decode, isDict) == Passed
  }

  /** No failure is counted and nothing raises exactly when every case passes. */
  lemma {:induction false} CasesFromAllPass<J>(doc: string, cases: seq<Case<J>>, j: nat, t: Tally,
                                                   run: (string, seq<string>) -> (int, string),
                                                   decode: string -> Maybe<J>, isDict: J -> bool)
    requires j <= |cases|
    ensures (CasesFrom(doc, cases, j, t, run, decode, isDict).Some?
             && CasesFrom(doc, cases, j, t, run, decode, isDict).value.failures == t.failures)
      <==> forall k :: j <= k < |cases| ==> CaseOutcome(doc, cases[k], run, decode, isDict) == Passed
    decreases |cases| - j
  {
    if j < |cases| {
      match CaseOutcome(doc, cases[j], run, decode, isDict)
      case Raised =>
      case Passed =>
        CasesFromAllPass(doc, cases, j + 1, Tally(t.passes + 1, t.failures), run, decode, isDict);
      case Failed(_) =>
    }
  }

  /** Fixtures whose every case passes. */
  predicate AllPass<J(==)>(fs: seq<Fixture<J>>, run: (string, seq<string>) -> (int, string),
                           decode: string -> Maybe<J>, isDict: J -> bool)
  {
    forall m :: 0 <= m < |fs| ==> FixturePasses(fs[m], run, decode, isDict)
  }

  lemma AllPassCons<J>(f: Fixture<J>, fs: seq<Fixture<J>>, run: (string, seq<string>) -> (int, string),
                       decode: string -> Maybe<J>, isDict: J -> bool)
    ensures AllPass([f] + fs, run, decode, isDict)
      <==> FixturePasses(f, run, decode, isDict) && AllPass(fs, run, decode, isDict)
  {
    assert forall m :: 0 < m < |fs| + 1 ==> ([f] + fs)[m] == fs[m - 1];
    if FixturePasses(f, run, decode, isDict) && AllPass(fs, run, decode, isDict) {
      forall m | 0 <= m < |fs| + 1 ensures FixturePasses(([f] + fs)[m], run, decode, isDict) {
        if m > 0 {
          assert FixturePasses(fs[m - 1], run, decode, isDict);
        }
      }
    }
    if AllPass([f] + fs, run, decode, isDict) {
      assert FixturePasses(([f] + fs)[0], run, decode, isDict);
      forall m | 0 <= m < |fs| ensures FixturePasses(fs[m], run, decode, isDict) {
        assert ([f] + fs)[m + 1] == fs[m];
        assert FixturePasses(([f] + fs)[m + 1], run, decode, isDict);
      }
    }
  }

  lemma {:induction false} SegmentsFromAllPass<J>(segments: seq<string>, i: nat, t: Tally,
                                                  run: (string, seq<string>) -> (int, string),
                                                  decode: string -> Maybe<J>, isDict: J -> bool)
    requires i <= |segments|
    ensures (SegmentsFrom(segments, i, t, run, decode, isDict).Some?
             && SegmentsFrom(segments, i, t, run, decode, isDict).value.failures == t.failures)
      <==> (ParseAll(segments, i, FixtureMaker(decode)).Some?
            && AllPass(ParseAll(segments, i, FixtureMaker(decode)).value, run, decode, isDict))
    decreases |segments| - i
  {
    if i < |segments| {
      match ParseFixture(segments[i], decode)
      case None =>
        assert FixtureMaker(decode)(segments[i]).None?;
      case Some(f) =>
        assert FixtureMaker(decode)(segments[i]) == Some(f);
        CasesFromAllPass(f.doc, f.cases, 0, t, run, decode, isDict);
        var m := CasesFrom(f.doc, f.cases, 0, t, run, decode, isDict);
        assert SegmentsFrom(segments, i, t, run, decode, isDict) == ThenSegments(m, segments, i + 1, run, decode, isDict);
        if m.Some? {
          SegmentsFromAllPass(segments, i + 1, m.value, run, decode, isDict);
        }
        var fs := ParseAll(segments, i + 1, FixtureMaker(decode));
        if fs.Some? {
          assert ParseAll(segments, i, FixtureMaker(decode)) == Some([f] + fs.value);
          AllPassCons(f, fs.value, run, decode, isDict);
        }
    }
  }

  /** The runner exits 0 exactly when every fixture parses and every case
      passes. */
  lemma RunPasses<J>(raw: string, run: (string, seq<string>) -> (int, string),
                     decode: string -> Maybe<J>, isDict: J -> bool)
    ensures (RunOutcome(raw, run, decode, isDict).Exited? && RunOutcome(raw, run, decode, isDict).status == 0)
      <==> (ParseTest(raw, decode).Some? && AllPass(ParseTest(raw, decode).value, run, decode, isDict))
  {
    SegmentsFromAllPass(Segments(raw), 0, Tally(0, 0), run, decode, isDict);
  }

  // ---------------------------------------------------------------------------
  // The runner loop

  /** One case: run the program, then set `error` as the runner does. */
  method RunCase<J(==)>(doc: string, c: Case<J>, run: (string, seq<string>) -> (int, string),
                        decode: string -> Maybe<J>, isDict: J -> bool) returns (o: Outcome)
    ensures o == CaseOutcome(doc, c, run, decode, isDict)
  {
    var args := Args(c.argv);
    var expectError := !isDict(c.expected);
    var error: Maybe<Failure> := None;
    var (code, out) := run(doc, args);
    if code == 0 {
      if expectError {
        error := Some(ErrorNotRaised);
      } else {
        var jsonOut := decode(out);
        if jsonOut.None? {
          return Raised;
        }
        if c.expected != jsonOut.value {
          error := Some(JsonMismatch);
        }
      }
    } else if !expectError {
      error := Some(ShouldHaveSucceeded(code));
    }
    if error.None? {
      return Passed;
    }
    return Failed(error.value);
  }

  /** The cases of one fixture, counted from `passes` and `failures`. */
  method RunFixture<J(==)>(doc: string, cases: seq<Case<J>>, passes: nat, failures: nat,
                           run: (string, seq<string>) -> (int, string),
                           decode: string -> Maybe<J>, isDict: J -> bool) returns (m: Maybe<Tally>)
    ensures m == CasesFrom(doc, cases, 0, Tally(passes, failures), run, decode, isDict)
  {
    var p, f := passes, failures;
    for j := 0 to |cases|
      invariant CasesFrom(doc, cases, j, Tally(p, f), run, decode, isDict)
             == CasesFrom(doc, cases, 0, Tally(passes, failures), run, decode, isDict)
    {
      var outcome := RunCase(doc, cases[j], run, decode, isDict);
      match outcome
      case Raised =>
        return None;
      case Passed =>
        p := p + 1;
      case Failed(_) =>
        f := f + 1;
    }
    return Some(Tally(p, f));
  }

  /** One turn of the runner's loop: parse the next fixture, skip it when it
      has no cases, and otherwise run and count its cases; `None` when the
      runner raises. */
  method RunSegment<J(==)>(segments: seq<string>, i: nat, passes: nat, failures: nat,
                           run: (string, seq<string>) -> (int, string),
                           decode: string -> Maybe<J>, isDict: J -> bool) returns (m: Maybe<Tally>)
    requires i < |segments|
    ensures m.None? ==> SegmentsFrom(segments, i, Tally(passes, failures), run, decode, isDict).None?
    ensures m.Some? ==>
      SegmentsFrom(segments, i, Tally(passes, failures), run, decode, isDict)
      == SegmentsFrom(segments, i + 1, m.value, run, decode, isDict)
  {
    var fixture := ParseFixture(segments[i], decode);
    if fixture.None? {
      return None;
    }
    var doc, cases := fixture.value.doc, fixture.value.cases;
    if cases == [] {
      return Some(Tally(passes, failures));
    }
    m := RunFixture(doc, cases, passes, failures, run, decode, isDict);
  }

  /** The loop over the fixtures: parse them one at a time, skip those
      without cases, run every case and count it; `None` when the runner
      raises. */
  method RunSegments<J(==)>(segments: seq<string>, run: (string, seq<string>) -> (int, string),
                            decode: string -> Maybe<J>, isDict: J -> bool) returns (m: Maybe<Tally>)
    ensures m == SegmentsFrom(segments, 0, Tally(0, 0), run, decode, isDict)
  {
    var failures: nat := 0;
    var passes: nat := 0;
    for i := 0 to |segments|
      invariant SegmentsFrom(segments, i, Tally(passes, failures), run, decode, isDict)
             == SegmentsFrom(segments, 0, Tally(0, 0), run, decode, isDict)
    {
      var next := RunSegment(segments, i, passes, failures, run, decode, isDict);
      if next.None? {
        return None;
      }
      passes, failures := next.value.passes, next.value.failures;
    }
    m := Some(Tally(passes, failures));
  }

  /** The whole runner: the fixtures of the test file, then the exit status. */
  method RunTests<J(==)>(raw: string, run: (string, seq<string>) -> (int, string),
                         decode: string -> Maybe<J>, isDict: J -> bool) returns (r: RunResult)
    ensures r == RunOutcome(raw, run, decode, isDict)
  {
    var segments := Segments(raw);
    var m := RunSegments(segments, run, decode, isDict);
    if m.None? {
      return Aborted;
    }
    var failures := m.value.failures;
    r := Exited(if failures > 0 then 1 else 0, m.value.passes, failures);
  }
}
