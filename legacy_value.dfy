/** The older `value` of include/docopt_value.h and its out-of-line members in
    src/docopt.cpp. It has the same kinds, constructors, predicates, equality
    and cast errors as the newer copy (module DocoptValue); the one behavioural
    difference is `asLong`, which does not convert strings.
 */
module LegacyValue {
  import opened Errors
  import Root = DocoptValue
  import DocoptUtil

  /** include/docopt_value.h `asLong`: only a Long value has one. */
  function AsLong(v: Root.Value): (r: Result<int>)
    ensures r.Ok? <==> v.Long?
    ensures v.Long? ==> r.value == v.n
    ensures r.Err? ==> r.error == RuntimeError(Root.CastMessage(Root.LongKind, Root.KindOf(v)))
  {
    var _ :- Root.ThrowIfNotKind(v, Root.LongKind);
    Ok(v.n)
  }

  /** The two copies of `asLong` agree on every value that is not a String. */
  lemma AsLongAgreesOffStrings(v: Root.Value)
    requires !v.String?
    ensures AsLong(v) == Root.AsLong(v)
  {
  }

  /** On a String the older copy always throws the cast error, while the newer
      one converts every string that is numeric to its end. */
  lemma AsLongDiffersOnStrings(s: string)
    ensures AsLong(Root.String(s)) == Err(RuntimeError(Root.CastMessage(Root.LongKind, Root.StringKind)))
    ensures Root.Stol(s).Ok? && Root.Stol(s).value.1 == |s| ==>
      Root.AsLong(Root.String(s)) == Ok(Root.Stol(s).value.0) && AsLong(Root.String(s)) != Root.AsLong(Root.String(s))
  {
  }

  /** A concrete witness: "42" is 42 for the newer copy and a cast error for the
      older one. */
  lemma AsLongOfFortyTwo()
    ensures Root.AsLong(Root.String("42")) == Ok(42)
    ensures AsLong(Root.String("42")).Err?
  {
    var s := "42";
    Root.StolOfNumeral(s, 0, 0, 2);
    assert s[0..2] == s;
    assert s[..1] == "4";
    assert Root.DigitsValue("4") == 4 by { assert "4"[..0] == []; }
  }
}
