/** The string helpers of include/docopt_util.h: starts_with, trim, split,
    partition and join, with the std::string searches they are built from.
 */
module DocoptUtil {
  import opened Errors

  /** The `anySpace` characters of split: " \t\r\n\v\f". */
  const AnySpace: set<char> := {' ', '\t', '\r', '\n', '\U{0B}', '\U{0C}'}

  /** The default `whitespace` argument of trim: " \t\n". */
  const TrimSpace: set<char> := {' ', '\t', '\n'}

  predicate AllIn(s: string, cs: set<char>) {
    forall k :: 0 <= k < |s| ==> s[k] in cs
  }

  predicate NoneIn(s: string, cs: set<char>) {
    forall k :: 0 <= k < |s| ==> s[k] !in cs
  }

  // ---------------------------------------------------------------------------
  // starts_with

  /** `starts_with(str, prefix)`: false when `str` is shorter, otherwise whether
      the first |prefix| characters of `str` are `prefix`. */
  function StartsWith(str: string, prefix: string): (r: bool)
    ensures r <==> prefix <= str
    ensures |str| < |prefix| ==> !r
  {
    if |str| < |prefix| then false else str[..|prefix|] == prefix
  }

  // ---------------------------------------------------------------------------
  // The std::string searches used below (npos is None)

  /** `s.find_first_not_of(cs, pos)`. */
  function FindFirstNotOf(s: string, cs: set<char>, pos: nat): (r: Maybe<nat>)
    decreases |s| - pos
    ensures r.None? ==> forall k :: pos <= k < |s| ==> s[k] in cs
    ensures r.Some? ==> pos <= r.value < |s| && s[r.value] !in cs
    ensures r.Some? ==> forall k :: pos <= k < r.value ==> s[k] in cs
  {
    if pos >= |s| then None
    else if s[pos] !in cs then Some(pos)
    else FindFirstNotOf(s, cs, pos + 1)
  }

  /** `s.find_first_of(cs, pos)`. */
  function FindFirstOf(s: string, cs: set<char>, pos: nat): (r: Maybe<nat>)
    decreases |s| - pos
    ensures r.None? ==> forall k :: pos <= k < |s| ==> s[k] !in cs
    ensures r.Some? ==> pos <= r.value < |s| && s[r.value] in cs
    ensures r.Some? ==> forall k :: pos <= k < r.value ==> s[k] !in cs
  {
    if pos >= |s| then None
    else if s[pos] in cs then Some(pos)
    else FindFirstOf(s, cs, pos + 1)
  }

  /** `s.find_last_not_of(cs)`. */
  function FindLastNotOf(s: string, cs: set<char>): (r: Maybe<nat>)
    ensures r.None? <==> AllIn(s, cs)
    ensures r.Some? ==> r.value < |s| && s[r.value] !in cs
    ensures r.Some? ==> forall k :: r.value < k < |s| ==> s[k] in cs
  {
    if s == [] then None
    else if s[|s| - 1] !in cs then Some(|s| - 1)
    else FindLastNotOf(s[..|s| - 1], cs)
  }

  /** `sub` occurs in `s` at index `j`. */
  predicate OccursAt(s: string, sub: string, j: nat) {
    j + |sub| <= |s| && s[j..j + |sub|] == sub
  }

  /** `s.find(sub, from)`. */
  function FindFrom(s: string, sub: string, from: nat): (r: Maybe<nat>)
    decreases |s| - from
    ensures r.Some? ==> from <= r.value && OccursAt(s, sub, r.value)
    ensures r.Some? ==> forall j :: from <= j < r.value ==> !OccursAt(s, sub, j)
    ensures r.None? ==> forall j :: from <= j ==> !OccursAt(s, sub, j)
  {
    if from + |sub| > |s| then None
    else if s[from..from + |sub|] == sub then Some(from)
    else FindFrom(s, sub, from + 1)
  }

  /** `s.find(sub)`: the first occurrence. */
  function Find(s: string, sub: string): (r: Maybe<nat>)
    ensures r.Some? ==> OccursAt(s, sub, r.value)
    ensures r.Some? ==> forall j :: 0 <= j < r.value ==> !OccursAt(s, sub, j)
    ensures r.None? ==> forall j :: !OccursAt(s, sub, j)
  {
    FindFrom(s, sub, 0)
  }

  // ---------------------------------------------------------------------------
  // trim

  /** The number of leading characters of `s` that are in `cs`. */
  function LeadingIn(s: string, cs: set<char>): (n: nat)
    ensures n <= |s|
    ensures forall k :: 0 <= k < n ==> s[k] in cs
    ensures n < |s| ==> s[n] !in cs
  {
    if s == [] || s[0] !in cs then 0 else 1 + LeadingIn(s[1..], cs)
  }

  /** The number of trailing characters of `s` that are in `cs`. */
  function TrailingIn(s: string, cs: set<char>): (n: nat)
    ensures n <= |s|
    ensures forall k :: |s| - n <= k < |s| ==> s[k] in cs
    ensures n < |s| ==> s[|s| - n - 1] !in cs
  {
    if s == [] || s[|s| - 1] !in cs then 0 else 1 + TrailingIn(s[..|s| - 1], cs)
  }

  /** `trim(str, whitespace)`: cut everything after the last character not in
      `ws`, then everything before the first one. The result is the slice of
      `str` between its leading and its trailing run of `ws`, and "" when `str`
      is all whitespace. */
  function Trim(str: string, ws: set<char>): (r: string)
    ensures |r| <= |str|
    ensures r == [] <==> AllIn(str, ws)
    ensures r != [] ==> r[0] !in ws && r[|r| - 1] !in ws
    ensures r != [] ==> LeadingIn(str, ws) < |str| - TrailingIn(str, ws)
    ensures r != [] ==> r == str[LeadingIn(str, ws)..|str| - TrailingIn(str, ws)]
  {
    match FindLastNotOf(str, ws)
    case None => []
    case Some(strEnd) =>
      var s := str[..strEnd + 1];
      var strBegin := FindFirstNotOf(s, ws, 0);
      TrimSlice(str, ws, strEnd, strBegin.value);
      s[strBegin.value..]
  }

  /** The two cuts of Trim land on the leading and trailing runs. */
  lemma TrimSlice(str: string, ws: set<char>, strEnd: nat, strBegin: nat)
    requires strEnd < |str| && str[strEnd] !in ws
    requires forall k :: strEnd < k < |str| ==> str[k] in ws
    requires strBegin <= strEnd && str[strBegin] !in ws
    requires forall k :: 0 <= k < strBegin ==> str[k] in ws
    ensures LeadingIn(str, ws) == strBegin
    ensures TrailingIn(str, ws) == |str| - strEnd - 1
  {
  }

  /** Trimming twice is trimming once. */
  lemma {:induction false} TrimIdempotent(str: string, ws: set<char>)
    ensures Trim(Trim(str, ws), ws) == Trim(str, ws)
  {
    var r := Trim(str, ws);
    if r != [] {
      TrimUntrimmed(r, ws);
    }
  }

  /** A string that starts and ends outside `ws` is its own trim. */
  lemma {:induction false} TrimUntrimmed(r: string, ws: set<char>)
    requires r != [] && r[0] !in ws && r[|r| - 1] !in ws
    ensures Trim(r, ws) == r
  {
    assert !AllIn(r, ws) by { assert r[0] !in ws; }
    assert LeadingIn(r, ws) == 0;
    assert TrailingIn(r, ws) == 0;
    assert r[0..|r|] == r;
  }

  // ---------------------------------------------------------------------------
  // split

  /** Reference definition of split: the maximal runs of characters outside
      `cs`, in order (split uses `cs` = AnySpace). */
  function Words(s: string, cs: set<char>): seq<string>
    decreases |s|
  {
    if s == [] then []
    else if s[0] in cs then Words(s[1..], cs)
    else
      var n := LeadingNotIn(s, cs);
      [s[..n]] + Words(s[n..], cs)
  }

  /** Every word is non-empty and free of separators. */
  lemma {:induction false} WordsAreWords(s: string, cs: set<char>)
    ensures forall i :: 0 <= i < |Words(s, cs)| ==> Words(s, cs)[i] != [] && NoneIn(Words(s, cs)[i], cs)
    decreases |s|
  {
    if s != [] {
      if s[0] in cs {
        WordsAreWords(s[1..], cs);
      } else {
        WordsAreWords(s[LeadingNotIn(s, cs)..], cs);
      }
    }
  }

  /** The number of leading characters of `s` that are not in `cs`. */
  function LeadingNotIn(s: string, cs: set<char>): (n: nat)
    ensures n <= |s|
    ensures forall k :: 0 <= k < n ==> s[k] !in cs
    ensures n < |s| ==> s[n] in cs
    ensures s != [] && s[0] !in cs ==> n >= 1
  {
    if s == [] || s[0] in cs then 0 else 1 + LeadingNotIn(s[1..], cs)
  }

  /** Leading separators do not change the words. */
  lemma {:induction false} WordsSkip(s: string, cs: set<char>, k: nat)
    requires k <= |s| && forall j :: 0 <= j < k ==> s[j] in cs
    ensures Words(s, cs) == Words(s[k..], cs)
    decreases k
  {
    if k > 0 {
      WordsSkip(s[1..], cs, k - 1);
      assert s[1..][k - 1..] == s[k..];
    }
  }

  /** A word that ends at a separator or at the end of `s` is the first word. */
  lemma WordsTake(s: string, cs: set<char>, e: nat)
    requires 1 <= e <= |s| && forall j :: 0 <= j < e ==> s[j] !in cs
    requires e == |s| || s[e] in cs
    ensures Words(s, cs) == [s[..e]] + Words(s[e..], cs)
  {
    assert LeadingNotIn(s, cs) == e;
  }

  /** Separators from `c` up to `st` do not change the words of the suffix. */
  lemma SkipSuffix(str: string, cs: set<char>, c: nat, st: nat)
    requires c <= st <= |str|
    requires forall k :: c <= k < st ==> str[k] in cs
    ensures Words(str[c..], cs) == Words(str[st..], cs)
  {
    var a := str[c..];
    forall j | 0 <= j < st - c ensures a[j] in cs { assert a[j] == str[c + j]; }
    WordsSkip(a, cs, st - c);
    assert a[st - c..] == str[st..];
  }

  /** A word from `st` to a separator or the end is the first word of the suffix. */
  lemma TakeSuffix(str: string, cs: set<char>, st: nat, size: nat)
    requires st < st + size <= |str|
    requires forall k :: st <= k < st + size ==> str[k] !in cs
    requires st + size == |str| || str[st + size] in cs
    ensures Words(str[st..], cs) == [str[st..st + size]] + Words(str[st + size..], cs)
  {
    var b := str[st..];
    forall j | 0 <= j < size ensures b[j] !in cs { assert b[j] == str[st + j]; }
    WordsTake(b, cs, size);
    assert b[..size] == str[st..st + size];
    assert b[size..] == str[st + size..];
  }

  /** One round of split's loop: skip the separators from `c` to `st`, then
      take the word from `st` to `st + size`. */
  lemma SplitStep(str: string, cs: set<char>, c: nat, st: nat, size: nat)
    requires c <= st < st + size <= |str|
    requires forall k :: c <= k < st ==> str[k] in cs
    requires forall k :: st <= k < st + size ==> str[k] !in cs
    requires st + size == |str| || str[st + size] in cs
    ensures Words(str[c..], cs) == [str[st..st + size]] + Words(str[st + size..], cs)
  {
    SkipSuffix(str, cs, c, st);
    TakeSuffix(str, cs, st, size);
  }

  /** Nothing but separators from `c` on means no more words. */
  lemma WordsAllSpace(str: string, cs: set<char>, c: nat)
    requires c <= |str| && forall k :: c <= k < |str| ==> str[k] in cs
    ensures Words(str[c..], cs) == []
  {
    var a := str[c..];
    assert forall j :: 0 <= j < |a| ==> a[j] in cs by {
      forall j | 0 <= j < |a| ensures a[j] in cs { assert a[j] == str[c + j]; }
    }
    WordsSkip(a, cs, |a|);
    assert a[|a|..] == [];
  }

  /** The words of `str` from `pos` on (none when `pos` is past the end). */
  function WordsFrom(str: string, cs: set<char>, pos: nat): seq<string>
  {
    if pos <= |str| then Words(str[pos..], cs) else []
  }

  /** One round of split's loop, stated with the searches it performs. */
  lemma SplitRound(str: string, cs: set<char>, c: nat)
    ensures FindFirstNotOf(str, cs, c).None? ==> WordsFrom(str, cs, c) == []
    ensures FindFirstNotOf(str, cs, c).Some? ==>
      var st := FindFirstNotOf(str, cs, c).value;
      var e := FindFirstOf(str, cs, st);
      var stop := if e.None? then |str| else e.value;
      WordsFrom(str, cs, c) == [str[st..stop]] + WordsFrom(str, cs, stop)
  {
    var f := FindFirstNotOf(str, cs, c);
    if f.None? {
      if c <= |str| { WordsAllSpace(str, cs, c); }
    } else {
      var st := f.value;
      var e := FindFirstOf(str, cs, st);
      var stop := if e.None? then |str| else e.value;
      SplitStep(str, cs, c, st, stop - st);
    }
  }

  /** The tokens split finds by scanning from `pos` with its two searches. */
  function Scan(str: string, cs: set<char>, pos: nat): seq<string>
    decreases |str| - pos
  {
    match FindFirstNotOf(str, cs, pos)
    case None => []
    case Some(st) =>
      match FindFirstOf(str, cs, st)
      case None => [str[st..]]
      case Some(e) => [str[st..e]] + Scan(str, cs, e)
  }

  /** Scanning finds exactly the words. */
  lemma {:induction false} ScanIsWords(str: string, cs: set<char>, pos: nat)
    ensures Scan(str, cs, pos) == WordsFrom(str, cs, pos)
    decreases |str| - pos
  {
    SplitRound(str, cs, pos);
    var f := FindFirstNotOf(str, cs, pos);
    if f.Some? {
      var e := FindFirstOf(str, cs, f.value);
      if e.Some? {
        ScanIsWords(str, cs, e.value);
      } else {
        assert str[f.value..|str|] == str[f.value..];
        assert WordsFrom(str, cs, |str|) == [] by { assert str[|str|..] == []; }
      }
    }
  }

  /** `split(str, pos)`: the whitespace-separated tokens of `str` from `pos` on;
      everything before `pos` is ignored. */
  method Split(str: string, pos: nat) returns (ret: seq<string>)
    ensures ret == WordsFrom(str, AnySpace, pos)
  {
    var anySpace := AnySpace;
    ghost var all := Scan(str, anySpace, pos);
    ret := [];
    var cur: Maybe<nat> := Some(pos);
    while cur.Some?
      invariant cur.Some? ==> ret + Scan(str, anySpace, cur.value) == all
      invariant cur.None? ==> ret == all
      decreases if cur.Some? && cur.value <= |str| then |str| + 1 - cur.value else 0
    {
      var start := FindFirstNotOf(str, anySpace, cur.value);
      if start.None? {
        assert ret + [] == ret;
        break;
      }
      var end := FindFirstOf(str, anySpace, start.value);
      var size := if end.None? then |str| - start.value else end.value - start.value;
      ghost var word := str[start.value..start.value + size];
      ghost var rest := if end.None? then [] else Scan(str, anySpace, end.value);
      if end.None? {
        assert word == str[start.value..];
      }
      assert Scan(str, anySpace, cur.value) == [word] + rest;
      assert (ret + [word]) + rest == ret + ([word] + rest);
      ret := ret + [str[start.value..start.value + size]];
      if end.None? {
        assert ret + [] == ret;
      }
      cur := end;
    }
    ScanIsWords(str, anySpace, pos);
  }

  /** Splitting at a separator splits the words. */
  lemma {:induction false} WordsSeparated(a: string, c: char, b: string, cs: set<char>)
    requires c in cs
    ensures Words(a + [c] + b, cs) == Words(a, cs) + Words(b, cs)
    decreases |a|
  {
    var s := a + [c] + b;
    if a == [] {
      assert s[1..] == b;
    } else if a[0] in cs {
      assert s[1..] == a[1..] + [c] + b;
      WordsSeparated(a[1..], c, b, cs);
    } else {
      var n := LeadingNotIn(a, cs);
      assert s[..n] == a[..n];
      WordsTake(s, cs, n);
      if n < |a| {
        WordsTake(a, cs, n);
        assert s[n..] == a[n..] + [c] + b;
        WordsSeparated(a[n..], c, b, cs);
      } else {
        assert s[n..] == [c] + b && s[n..][1..] == b;
        WordsTake(a, cs, n);
        assert a[n..] == [];
      }
    }
  }

  /** A non-empty string without separators is a single word. */
  lemma WordsOfWord(t: string, cs: set<char>)
    requires t != [] && NoneIn(t, cs)
    ensures Words(t, cs) == [t]
  {
    WordsTake(t, cs, |t|);
    assert t[..|t|] == t;
    assert t[|t|..] == [];
  }

  // ---------------------------------------------------------------------------
  // partition

  /** `partition(str, point)`: with `point` absent, (str, "", ""); otherwise the
      text before its first occurrence, `point`, and the text after it. */
  function Partition(str: string, point: string): (r: (string, string, string))
    ensures r.0 + r.1 + r.2 == str
    ensures Find(str, point).None? ==> r == (str, "", "")
    ensures Find(str, point).Some? ==> r.1 == point && |r.0| == Find(str, point).value
    ensures forall j :: 0 <= j < |r.0| ==> !OccursAt(str, point, j)
    ensures |point| > 0 ==> forall j :: !OccursAt(r.0, point, j)
  {
    match Find(str, point)
    case None => (str, "", "")
    case Some(i) =>
      var first := str[..i];
      assert first + point + str[i + |point|..] == str by {
        assert str[i..i + |point|] == point;
      }
      PrefixNoOccurrence(str, point, i);
      (first, point, str[i + |point|..])
  }

  /** No occurrence of `point` before index `i` means none inside `str[..i]`. */
  lemma PrefixNoOccurrence(str: string, point: string, i: nat)
    requires i <= |str|
    requires forall j :: 0 <= j < i ==> !OccursAt(str, point, j)
    ensures |point| > 0 ==> forall j :: !OccursAt(str[..i], point, j)
  {
    if |point| > 0 {
      forall j: nat | OccursAt(str[..i], point, j) ensures false {
        assert str[..i][j..j + |point|] == str[j..j + |point|];
        assert OccursAt(str, point, j);
      }
    }
  }

  // ---------------------------------------------------------------------------
  // join

  /** Reference definition of join: the parts with `delim` between neighbours. */
  function Joined(parts: seq<string>, delim: string): string
    decreases |parts|
  {
    if parts == [] then []
    else if |parts| == 1 then parts[0]
    else parts[0] + delim + Joined(parts[1..], delim)
  }

  /** Appending a part appends `delim` and the part. */
  lemma {:induction false} JoinedSnoc(parts: seq<string>, x: string, delim: string)
    requires parts != []
    ensures Joined(parts + [x], delim) == Joined(parts, delim) + delim + x
    decreases |parts|
  {
    if |parts| == 1 {
      assert (parts + [x])[1..] == [x];
    } else {
      assert (parts + [x])[1..] == parts[1..] + [x];
      JoinedSnoc(parts[1..], x, delim);
    }
  }

  /** The total length of the parts. */
  function TotalLength(parts: seq<string>): nat {
    if parts == [] then 0 else |parts[0]| + TotalLength(parts[1..])
  }

  /** n >= 1 parts are separated by exactly n - 1 delimiters. */
  lemma {:induction false} JoinedLength(parts: seq<string>, delim: string)
    requires parts != []
    ensures |Joined(parts, delim)| == TotalLength(parts) + (|parts| - 1) * |delim|
    decreases |parts|
  {
    if |parts| > 1 {
      JoinedLength(parts[1..], delim);
    }
  }

  /** Joining words with a separator and splitting again gives the words back. */
  lemma {:induction false} WordsOfJoined(ts: seq<string>, sep: char, cs: set<char>)
    requires sep in cs
    requires forall i :: 0 <= i < |ts| ==> ts[i] != [] && NoneIn(ts[i], cs)
    ensures Words(Joined(ts, [sep]), cs) == ts
    decreases |ts|
  {
    if |ts| == 1 {
      WordsOfWord(ts[0], cs);
    } else if |ts| > 1 {
      WordsOfJoined(ts[1..], sep, cs);
      assert Joined(ts, [sep]) == ts[0] + [sep] + Joined(ts[1..], [sep]);
      WordsSeparated(ts[0], sep, Joined(ts[1..], [sep]), cs);
      WordsOfWord(ts[0], cs);
    }
  }

  /** `join(iter, end, delim)`. */
  method Join(parts: seq<string>, delim: string) returns (ret: string)
    ensures ret == Joined(parts, delim)
  {
    if parts == [] {
      return [];
    }
    ret := parts[0];
    for i := 1 to |parts|
      invariant ret == Joined(parts[..i], delim)
    {
      JoinedSnoc(parts[..i], parts[i], delim);
      assert parts[..i + 1] == parts[..i] + [parts[i]];
      ret := ret + delim + parts[i];
    }
    assert parts[..|parts|] == parts;
  }
}
