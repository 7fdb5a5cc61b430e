/** `operator<<(std::ostream&, value const&)`: booleans as true/false, longs in
    decimal, strings between double quotes (nothing is escaped), lists as
    `["a", "b"]` and the empty value as `null`.

    docopt.cpp writes to the stream it is given; the older src/docopt.cpp
    writes the same text to `std::cout` and returns the stream it was given
    untouched.
 */
module ValueOutput {
  import opened Errors
  import opened DocoptUtil
  import opened DocoptValue

  // ---------------------------------------------------------------------------
  // Decimal text of a long

  function DigitChar(d: nat): (c: char)
    requires d < 10
    ensures IsDigit(c) && DigitOf(c) == d
  {
    ('0' as int + d) as char
  }

  /** The decimal digits of `n`, without leading zeros. */
  function NatDigits(n: nat): (ds: string)
    ensures |ds| >= 1
    ensures forall k :: 0 <= k < |ds| ==> IsDigit(ds[k])
  {
    if n < 10 then [DigitChar(n)] else NatDigits(n / 10) + [DigitChar(n % 10)]
  }

  /** `os << n` for a long: an optional minus sign, then the digits. */
  function DecimalString(n: int): string {
    if n < 0 then "-" + NatDigits(-n) else NatDigits(n)
  }

  /** The digits denote the number they were written from. */
  lemma {:induction false} NatDigitsValue(n: nat)
    ensures DigitsValue(NatDigits(n)) == n
  {
    var ds := NatDigits(n);
    if n >= 10 {
      NatDigitsValue(n / 10);
      assert ds[..|ds| - 1] == NatDigits(n / 10);
    } else {
      assert ds[..0] == [];
    }
  }

  /** A run of digits is read to its end. */
  lemma LeadingDigitsOfDigits(ds: string)
    requires forall k :: 0 <= k < |ds| ==> IsDigit(ds[k])
    ensures LeadingDigits(ds) == |ds|
  {
    if ds != [] {
      LeadingDigitsOfDigits(ds[1..]);
    }
  }

  /** `std::stol` reads back exactly what `os << n` writes, to its end. */
  lemma StolOfDecimal(n: int)
    ensures Stol(DecimalString(n)) == Ok((n, |DecimalString(n)|))
  {
    var s := DecimalString(n);
    var ds := NatDigits(if n < 0 then -n else n);
    assert LeadingIn(s, AnySpace) == 0;
    NatDigitsValue(if n < 0 then -n else n);
    LeadingDigitsOfDigits(ds);
    if n < 0 {
      assert StolDigitsStart(s) == 1;
      assert s[1..] == ds;
      assert s[1..1 + |ds|] == ds;
    } else {
      assert StolDigitsStart(s) == 0;
      assert s[0..|ds|] == s == ds;
    }
  }

  // ---------------------------------------------------------------------------
  // The text of a value

  function Quote(s: string): string {
    "\"" + s + "\""
  }

  function Quoted(list: seq<string>): (r: seq<string>)
    ensures |r| == |list|
    ensures forall i :: 0 <= i < |list| ==> r[i] == Quote(list[i])
  {
    if list == [] then [] else [Quote(list[0])] + Quoted(list[1..])
  }

  /** The text `operator<<` writes for a value; its first character tells
      the kind apart. */
  function Render(v: Value): (r: string)
    ensures |r| > 0
    ensures r[0] == 't' || r[0] == 'f' <==> v.Bool?
    ensures IsDigit(r[0]) || r[0] == '-' <==> v.Long?
    ensures r[0] == '"' <==> v.String?
    ensures r[0] == '[' <==> v.StringList?
    ensures r[0] == 'n' <==> v.Empty?
  {
    match v
    case Bool(b) => if b then "true" else "false"
    case Long(n) =>
      assert IsDigit(NatDigits(if n < 0 then -n else n)[0]);
      DecimalString(n)
    case String(s) => Quote(s)
    case StringList(list) => "[" + Joined(Quoted(list), ", ") + "]"
    case Empty => "null"
  }

  /** A long written out reads back with `asLong` of the newer copy. */
  lemma RenderLongRoundTrip(n: int)
    ensures AsLong(String(Render(Long(n)))) == Ok(n)
  {
    StolOfDecimal(n);
  }

  /** A string written out is the string between one pair of quotes. */
  lemma RenderStringRoundTrip(s: string)
    ensures |Render(String(s))| == |s| + 2
    ensures Render(String(s))[1..|s| + 1] == s
  {
  }

  // ---------------------------------------------------------------------------
  // The streams

  /** An output stream: the text written to it so far. */
  class OStream {
    var text: string

    constructor ()
      ensures text == []
    {
      text := [];
    }

    method Put(s: string)
      modifies this
      ensures text == old(text) + s
    {
      text := text + s;
    }
  }

  /** The text of a list's first `i + 1` elements is that of the first `i`
      and the next element, separated by `, ` unless it is the first. */
  lemma JoinedQuotedStep(list: seq<string>, i: nat, front: string, text: string)
    requires i < |list|
    requires text == front + Joined(Quoted(list[..i]), ", ") + (if i == 0 then "" else ", ") + Quote(list[i])
    ensures text == front + Joined(Quoted(list[..i + 1]), ", ")
  {
    assert Quoted(list[..i + 1]) == Quoted(list[..i]) + [Quote(list[i])];
    if i == 0 {
      assert Quoted(list[..1]) == [Quote(list[0])];
      assert Quoted(list[..0]) == [];
    } else {
      JoinedSnoc(Quoted(list[..i]), Quote(list[i]), ", ");
    }
  }

  /** Writes one element of a list: `, ` before all but the first, then the
      element between double quotes. */
  method WriteElement(out: OStream, s: string, first: bool)
    modifies out
    ensures out.text == old(out.text) + (if first then "" else ", ") + Quote(s)
  {
    if !first {
      out.Put(", ");
    }
    out.Put("\"");
    out.Put(s);
    out.Put("\"");
  }

  /** Writes a list as `[`, the quoted elements separated by `, `, then `]`. */
  method WriteList(out: OStream, list: seq<string>)
    modifies out
    ensures out.text == old(out.text) + ("[" + Joined(Quoted(list), ", ") + "]")
  {
    ghost var start := out.text;
    out.Put("[");
    var first := true;
    for i := 0 to |list|
      invariant first <==> i == 0
      invariant out.text == start + "[" + Joined(Quoted(list[..i]), ", ")
    {
      WriteElement(out, list[i], first);
      JoinedQuotedStep(list, i, start + "[", out.text);
      first := false;
    }
    out.Put("]");
    assert list[..|list|] == list;
  }

  /** Writes the text of `val` to `out`. */
  method WriteTo(out: OStream, val: Value)
    modifies out
    ensures out.text == old(out.text) + Render(val)
  {
    if IsBool(val) {
      var b := AsBool(val).value;
      out.Put(if b then "true" else "false");
    } else if IsLong(val) {
      var v := AsLong(val).value;
      out.Put(DecimalString(v));
    } else if IsString(val) {
      var str := AsString(val).value;
      out.Put("\"");
      out.Put(str);
      out.Put("\"");
    } else if IsStringList(val) {
      var list := AsStringList(val).value;
      WriteList(out, list);
    } else {
      out.Put("null");
    }
  }

  /** docopt.cpp `operator<<`: writes to `os` and returns it. */
  method Write(os: OStream, val: Value) returns (r: OStream)
    modifies os
    ensures r == os
    ensures os.text == old(os.text) + Render(val)
  {
    WriteTo(os, val);
    return os;
  }

  /** src/docopt.cpp `operator<<`: writes to `cout` whatever stream it is
      given, and returns that stream. */
  method WriteLegacy(os: OStream, cout: OStream, val: Value) returns (r: OStream)
    modifies cout
    ensures r == os
    ensures cout.text == old(cout.text) + Render(val)
    ensures os != cout ==> os.text == old(os.text)
  {
    WriteTo(cout, val);
    return os;
  }
}
