/** The `docopt::value` variant of docopt_value.h: a tagged union that is empty
    or holds a bool, a long, a string or a list of strings.

    `Value` is the variant as a value; `ValueCell` is the C++ object itself, a
    `kind_` tag beside a `variant_` union whose active member the constructors
    and assignments rebuild in place.
 */
module DocoptValue {
  import opened Errors
  import opened DocoptUtil

  /** `enum class Kind`. */
  datatype Kind = EmptyKind | BoolKind | LongKind | StringKind | StringListKind

  /** The contents of a `value`. `long` is unbounded here. */
  datatype Value =
    | Empty
    | Bool(b: bool)
    | Long(n: int)
    | String(s: string)
    | StringList(list: seq<string>)

  /** The range of C++ `int`, for `value(int)`. */
  newtype Int32 = x: int | -0x8000_0000 <= x < 0x8000_0000

  /** The `kind` tag each constructor sets. */
  function KindOf(v: Value): (k: Kind)
    ensures k == EmptyKind <==> v.Empty?
    ensures k == BoolKind <==> v.Bool?
    ensures k == LongKind <==> v.Long?
    ensures k == StringKind <==> v.String?
    ensures k == StringListKind <==> v.StringList?
  {
    match v
    case Empty => EmptyKind
    case Bool(_) => BoolKind
    case Long(_) => LongKind
    case String(_) => StringKind
    case StringList(_) => StringListKind
  }

  // ---------------------------------------------------------------------------
  // Constructors

  /** `value()`: the empty value. */
  function Default(): (r: Value)
    ensures KindOf(r) == EmptyKind && !Truthy(r)
  {
    Empty
  }

  /** `explicit value(bool)`. */
  function FromBool(b: bool): (r: Value)
    ensures Truthy(r) && IsBool(r) && AsBool(r) == Ok(b)
  {
    Bool(b)
  }

  /** `explicit value(long)`. */
  function FromLong(n: int): (r: Value)
    ensures Truthy(r) && IsLong(r) && AsLong(r) == Ok(n)
  {
    Long(n)
  }

  /** `explicit value(int)` delegates to `value(long)`. */
  function FromInt(v: Int32): (r: Value)
    ensures r == FromLong(v as int)
    ensures AsLong(r) == Ok(v as int)
  {
    FromLong(v as int)
  }

  /** `value(std::string)`. */
  function FromString(s: string): (r: Value)
    ensures Truthy(r) && IsString(r) && AsString(r) == Ok(s)
  {
    String(s)
  }

  /** `value(std::vector<std::string>)`. */
  function FromStringList(list: seq<string>): (r: Value)
    ensures Truthy(r) && IsStringList(r) && AsStringList(r) == Ok(list)
  {
    StringList(list)
  }

  // ---------------------------------------------------------------------------
  // Kind tests

  /** `explicit operator bool`: whether the value has any contents. */
  predicate Truthy(v: Value): (r: bool)
    ensures r <==> !v.Empty?
  {
    KindOf(v) != EmptyKind
  }

  predicate IsBool(v: Value) { KindOf(v) == BoolKind }
  predicate IsLong(v: Value) { KindOf(v) == LongKind }
  predicate IsString(v: Value) { KindOf(v) == StringKind }
  predicate IsStringList(v: Value) { KindOf(v) == StringListKind }

  /** The number of kind predicates that hold. */
  function KindTests(v: Value): nat {
    (if IsBool(v) then 1 else 0) + (if IsLong(v) then 1 else 0)
    + (if IsString(v) then 1 else 0) + (if IsStringList(v) then 1 else 0)
  }

  /** A value converts to true exactly when one kind predicate holds, and to
      false exactly when none does. */
  lemma ExactlyOneKind(v: Value)
    ensures Truthy(v) <==> KindTests(v) == 1
    ensures !Truthy(v) <==> KindTests(v) == 0
  {
  }

  // ---------------------------------------------------------------------------
  // Checked accessors

  /** `kindAsString`. */
  function KindAsString(k: Kind): (r: string)
    ensures r != [] && ';' !in r
  {
    match k
    case EmptyKind => "empty"
    case BoolKind => "bool"
    case LongKind => "long"
    case StringKind => "string"
    case StringListKind => "string-list"
  }

  /** The message of the runtime_error thrown by a cast to the wrong kind. */
  function CastMessage(expected: Kind, actual: Kind): string {
    CastPrefix + (KindAsString(expected) + (CastMiddle + KindAsString(actual)))
  }

  const CastPrefix: string := "Illegal cast to "
  const CastMiddle: string := "; type is actually "

  /** `throwIfNotKind(expected)`: returns on a matching kind, throws otherwise. */
  function ThrowIfNotKind(v: Value, expected: Kind): (r: Result<()>)
    ensures r.Ok? <==> KindOf(v) == expected
    ensures r.Err? ==> r.error == RuntimeError(CastMessage(expected, KindOf(v)))
  {
    if KindOf(v) == expected then Ok(()) else Err(RuntimeError(CastMessage(expected, KindOf(v))))
  }

  /** `asBool`. */
  function AsBool(v: Value): (r: Result<bool>)
    ensures r.Ok? <==> v.Bool?
    ensures v.Bool? ==> r.value == v.b
    ensures r.Err? ==> r.error == RuntimeError(CastMessage(BoolKind, KindOf(v)))
  {
    var _ :- ThrowIfNotKind(v, BoolKind);
    Ok(v.b)
  }

  /** `asString`. */
  function AsString(v: Value): (r: Result<string>)
    ensures r.Ok? <==> v.String?
    ensures v.String? ==> r.value == v.s
    ensures r.Err? ==> r.error == RuntimeError(CastMessage(StringKind, KindOf(v)))
  {
    var _ :- ThrowIfNotKind(v, StringKind);
    Ok(v.s)
  }

  /** `asStringList`. */
  function AsStringList(v: Value): (r: Result<seq<string>>)
    ensures r.Ok? <==> v.StringList?
    ensures v.StringList? ==> r.value == v.list
    ensures r.Err? ==> r.error == RuntimeError(CastMessage(StringListKind, KindOf(v)))
  {
    var _ :- ThrowIfNotKind(v, StringListKind);
    Ok(v.list)
  }

  /** `asLong`: a Long gives its payload; a String is converted with `std::stol`
      and must be numeric to its end; every other kind is a cast error. */
  function AsLong(v: Value): (r: Result<int>)
    ensures v.Long? ==> r == Ok(v.n)
    ensures !v.Long? && !v.String? ==> r == Err(RuntimeError(CastMessage(LongKind, KindOf(v))))
    ensures v.String? && r.Ok? ==> Stol(v.s) == Ok((r.value, |v.s|))
    ensures v.String? && Stol(v.s).Ok? && Stol(v.s).value.1 < |v.s| ==>
      r == Err(RuntimeError(v.s + " contains non-numeric characters."))
  {
    if v.String? then
      var (n, pos) :- Stol(v.s);
      if pos != |v.s| then Err(RuntimeError(v.s + " contains non-numeric characters."))
      else Ok(n)
    else
      var _ :- ThrowIfNotKind(v, LongKind);
      Ok(v.n)
  }

  /** The message of the std::invalid_argument thrown by `std::stol`. */
  const StolMessage: string := "stol"

  // ---------------------------------------------------------------------------
  // std::stol (base 10): skip white space, an optional sign, then digits

  predicate IsDigit(c: char) { '0' <= c <= '9' }

  /** The number of leading decimal digits of `s`. */
  function LeadingDigits(s: string): (n: nat)
    ensures n <= |s|
    ensures forall k :: 0 <= k < n ==> IsDigit(s[k])
    ensures n < |s| ==> !IsDigit(s[n])
  {
    if s == [] || !IsDigit(s[0]) then 0 else 1 + LeadingDigits(s[1..])
  }

  /** The value of one decimal digit. */
  function DigitOf(c: char): (d: nat)
    requires IsDigit(c)
    ensures d < 10
  {
    c as int - '0' as int
  }

  /** The number a run of decimal digits denotes. */
  function DigitsValue(ds: string): (n: nat)
    requires forall k :: 0 <= k < |ds| ==> IsDigit(ds[k])
  {
    if ds == [] then 0
    else DigitsValue(ds[..|ds| - 1]) * 10 + DigitOf(ds[|ds| - 1])
  }

  /** The index after the white space and sign that stol skips. */
  function StolDigitsStart(s: string): (j: nat)
    ensures j <= |s|
  {
    var i := LeadingIn(s, AnySpace);
    if i < |s| && (s[i] == '+' || s[i] == '-') then i + 1 else i
  }

  /** `std::stol(s, &pos)`: the number and the index after its last digit, or
      std::invalid_argument when no digit follows the white space and sign.
      (Values outside the range of `long` are not modelled.) */
  function Stol(s: string): (r: Result<(int, nat)>)
    ensures r.Err? <==> LeadingDigits(s[StolDigitsStart(s)..]) == 0
    ensures r.Err? ==> r.error == InvalidArgument(StolMessage)
    ensures r.Ok? ==> StolDigitsStart(s) < r.value.1 <= |s|
    ensures r.Ok? ==> r.value.1 == |s| || !IsDigit(s[r.value.1])
  {
    var j := StolDigitsStart(s);
    var d := LeadingDigits(s[j..]);
    if d == 0 then Err(InvalidArgument(StolMessage))
    else
      var magnitude: int := DigitsValue(s[j..j + d]);
      Ok((if StolNegative(s) then -magnitude else magnitude, j + d))
  }

  /** The sign stol reads after the white space is `-`. */
  predicate StolNegative(s: string) {
    var i := LeadingIn(s, AnySpace);
    i < |s| && s[i] == '-'
  }

  /** `std::stol` on a string that opens with white space up to `a`, then a
      sign when `b` is 1, then digits up to `e`, followed by the end or a
      non-digit: the signed value of those digits, and `e`. */
  lemma StolOfNumeral(s: string, a: nat, b: nat, e: nat)
    requires a + b < e <= |s| && b <= 1
    requires forall k :: 0 <= k < a ==> s[k] in AnySpace
    requires b == 1 ==> s[a] == '+' || s[a] == '-'
    requires forall k :: a + b <= k < e ==> IsDigit(s[k])
    requires e < |s| ==> !IsDigit(s[e])
    ensures var m: int := DigitsValue(s[a + b..e]);
      Stol(s) == Ok((if b == 1 && s[a] == '-' then -m else m, e))
  {
    var j := a + b;
    assert StolDigitsStart(s) == j && (StolNegative(s) <==> b == 1 && s[a] == '-') by {
      StolStart(s, a, b);
    }
    assert LeadingDigits(s[j..]) == e - j && forall k :: 0 <= k < e - j ==> IsDigit(s[j..e][k]) by {
      DigitsRun(s, j, e);
    }
    StolWithDigitsAt(s, a + b, e, DigitsValue(s[a + b..e]), b == 1 && s[a] == '-');
  }

  /** Where stol's digits start, and its sign. */
  lemma StolStart(s: string, a: nat, b: nat)
    requires a + b < |s| && b <= 1
    requires forall k :: 0 <= k < a ==> s[k] in AnySpace
    requires b == 1 ==> s[a] == '+' || s[a] == '-'
    requires b == 0 ==> IsDigit(s[a])
    ensures StolDigitsStart(s) == a + b
    ensures StolNegative(s) <==> b == 1 && s[a] == '-'
  {
    assert LeadingIn(s, AnySpace) == a;
  }

  /** A run of digits from `j` to `e`, ended by the end or a non-digit. */
  lemma DigitsRun(s: string, j: nat, e: nat)
    requires j <= e <= |s|
    requires forall k :: j <= k < e ==> IsDigit(s[k])
    requires e < |s| ==> !IsDigit(s[e])
    ensures LeadingDigits(s[j..]) == e - j
    ensures forall k :: 0 <= k < e - j ==> IsDigit(s[j..e][k])
  {
    var t := s[j..];
    assert forall k :: 0 <= k < e - j ==> t[k] == s[j + k];
    if e < |s| {
      assert t[e - j] == s[e];
    }
  }

  /** `std::stol` once its digits are found from `j` to `e`. */
  lemma StolWithDigitsAt(s: string, j: nat, e: nat, m: int, negative: bool)
    requires StolDigitsStart(s) == j < e <= |s| && LeadingDigits(s[j..]) == e - j
    requires m == DigitsValue(s[j..e]) && negative == StolNegative(s)
    ensures Stol(s) == Ok((if negative then -m else m, e))
  {
  }

  // ---------------------------------------------------------------------------
  // Equality

  /** `operator==`: false across kinds, true for two empties, otherwise the
      payloads are compared. */
  function Equal(v1: Value, v2: Value): (r: bool)
    ensures r ==> KindOf(v1) == KindOf(v2)
    ensures r <==> v1 == v2
  {
    if KindOf(v1) != KindOf(v2) then false
    else match v1
      case String(s) => s == v2.s
      case StringList(l) => l == v2.list
      case Bool(b) => b == v2.b
      case Long(n) => n == v2.n
      case Empty => true
  }

  /** `operator!=`. */
  function NotEqual(v1: Value, v2: Value): (r: bool)
    ensures r <==> v1 != v2
  {
    !Equal(v1, v2)
  }

  /** `==` is exactly equality of contents, and `!=` its negation. */
  lemma EqualIsIdentity(v1: Value, v2: Value)
    ensures Equal(v1, v2) <==> v1 == v2
    ensures NotEqual(v1, v2) <==> v1 != v2
    ensures KindOf(v1) != KindOf(v2) ==> !Equal(v1, v2)
  {
  }

  // ---------------------------------------------------------------------------
  // Properties of the accessors

  /** Each accessor is the inverse of its constructor, and a cast to another
      kind reports both kinds. */
  lemma AccessorsInvertConstructors(v: Value, k: Kind)
    ensures AsBool(v).Ok? ==> FromBool(AsBool(v).value) == v
    ensures AsString(v).Ok? ==> FromString(AsString(v).value) == v
    ensures AsStringList(v).Ok? ==> FromStringList(AsStringList(v).value) == v
    ensures v.Long? ==> FromLong(AsLong(v).value) == v
    ensures ThrowIfNotKind(v, k).Err? ==> k != KindOf(v)
  {
  }

  /** The kind names are pairwise distinct. */
  lemma KindAsStringInjective(k1: Kind, k2: Kind)
    requires KindAsString(k1) == KindAsString(k2)
    ensures k1 == k2
  {
  }

  /** `p + x == p + y` cancels to `x == y`. */
  lemma CancelPrefix(p: string, x: string, y: string)
    requires p + x == p + y
    ensures x == y
  {
    assert x == (p + x)[|p|..];
    assert y == (p + y)[|p|..];
  }

  /** A kind name followed by ';' determines the kind: no kind name is a
      prefix of another one up to a ';'. */
  lemma KindNameThenSemicolon(k1: Kind, k2: Kind, x: string, y: string)
    requires |x| > 0 && |y| > 0 && x[0] == ';' && y[0] == ';'
    requires KindAsString(k1) + x == KindAsString(k2) + y
    ensures k1 == k2 && x == y
  {
    var a, b := KindAsString(k1), KindAsString(k2);
    var s := a + x;
    assert s[|a|] == ';';
    assert s == b + y && s[|b|] == ';';
    assert |a| == |b|;
    assert a == s[..|a|] == b;
    KindAsStringInjective(k1, k2);
    CancelPrefix(a, x, y);
  }

  /** The cast error message names both kinds unambiguously. */
  lemma CastMessageDeterminesKinds(e1: Kind, a1: Kind, e2: Kind, a2: Kind)
    requires CastMessage(e1, a1) == CastMessage(e2, a2)
    ensures e1 == e2 && a1 == a2
  {
    var x1, x2 := CastMiddle + KindAsString(a1), CastMiddle + KindAsString(a2);
    CancelPrefix(CastPrefix, KindAsString(e1) + x1, KindAsString(e2) + x2);
    KindNameThenSemicolon(e1, e2, x1, x2);
    CancelPrefix(CastMiddle, KindAsString(a1), KindAsString(a2));
    KindAsStringInjective(a1, a2);
  }

  /** A failed stol conversion and a trailing non-digit are the only ways a
      String fails `asLong`, and the legacy cast message is never produced for
      it. */
  lemma AsLongOnString(s: string)
    ensures AsLong(String(s)).Err? <==>
      Stol(s).Err? || Stol(s).value.1 != |s|
    ensures Stol(s).Err? ==> AsLong(String(s)) == Err(InvalidArgument(StolMessage))
  {
  }

  // ---------------------------------------------------------------------------
  // The C++ object

  /** The storage of `union Variant`. Only the member named by the kind tag is
      meaningful; the others keep whatever they held. */
  datatype Variant = Variant(boolValue: bool, longValue: int, strValue: string, strList: seq<string>)

  const Blank := Variant(false, 0, "", [])

  /** A `value` object: the kind tag and the union, updated in place by the
      constructors and assignment operators. */
  class ValueCell {
    var kind: Kind
    var variant: Variant

    /** The contents the object denotes: the active member of the union. */
    function Get(): Value
      reads this
    {
      match kind
      case EmptyKind => Empty
      case BoolKind => Bool(variant.boolValue)
      case LongKind => Long(variant.longValue)
      case StringKind => String(variant.strValue)
      case StringListKind => StringList(variant.strList)
    }

    /** `value()`. */
    constructor ()
      ensures Get() == Default()
    {
      kind := EmptyKind;
      variant := Blank;
    }

    /** `value(bool)`. */
    constructor OfBool(b: bool)
      ensures Get() == FromBool(b)
    {
      kind := BoolKind;
      variant := Blank.(boolValue := b);
    }

    /** `value(long)`. */
    constructor OfLong(n: int)
      ensures Get() == FromLong(n)
    {
      kind := LongKind;
      variant := Blank.(longValue := n);
    }

    /** `value(std::string)`. */
    constructor OfString(s: string)
      ensures Get() == FromString(s)
    {
      kind := StringKind;
      variant := Blank.(strValue := s);
    }

    /** `value(std::vector<std::string>)`. */
    constructor OfStringList(list: seq<string>)
      ensures Get() == FromStringList(list)
    {
      kind := StringListKind;
      variant := Blank.(strList := list);
    }

    /** The copy constructor: copies the tag, then the active member. */
    constructor Copy(other: ValueCell)
      ensures Get() == other.Get()
      ensures Equal(Get(), other.Get())
    {
      kind := other.kind;
      match other.kind {
        case StringKind => variant := Blank.(strValue := other.variant.strValue);
        case StringListKind => variant := Blank.(strList := other.variant.strList);
        case BoolKind => variant := Blank.(boolValue := other.variant.boolValue);
        case LongKind => variant := Blank.(longValue := other.variant.longValue);
        case EmptyKind => variant := Blank;
      }
      new;
      EqualIsIdentity(Get(), other.Get());
    }

    /** Move assignment: destroy this value, then move-construct it in place
        from `other` (the moved-from state of `other` is not modelled). */
    method MoveAssign(other: ValueCell)
      modifies this
      ensures Get() == old(other.Get())
    {
      var k, v := other.kind, other.variant;
      // ~value(): the members are freed; nothing observable remains.
      kind := EmptyKind;
      variant := Blank;
      // new (this) value(std::move(other))
      kind := k;
      match k {
        case StringKind => variant := Blank.(strValue := v.strValue);
        case StringListKind => variant := Blank.(strList := v.strList);
        case BoolKind => variant := Blank.(boolValue := v.boolValue);
        case LongKind => variant := Blank.(longValue := v.longValue);
        case EmptyKind =>
      }
    }

    /** Copy assignment: copy `other` into a temporary, then move-assign it,
        which makes self-assignment safe. */
    method Assign(other: ValueCell)
      modifies this
      ensures Get() == old(other.Get())
      ensures Equal(Get(), old(other.Get()))
    {
      var tmp := new ValueCell.Copy(other);
      MoveAssign(tmp);
      EqualIsIdentity(Get(), old(other.Get()));
    }
  }
}
