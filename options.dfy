/*
 * lbuild/option.py: typed options. An option converts every value it is
 * given twice: once into the stored input (what `is_default` compares) and
 * once into the output that modules read. The conversions, the construction
 * checks and the value setter are pure functions over `OptionData`; the
 * dependency bookkeeping of a value change lives with the node tree.
 */
module Options {
  import opened Errors
  import opened PyValue
  import Text
  import Utils

  // ---------------------------------------------------------------- boolean

  const TrueTokens: seq<string> := ["true", "yes", "1"]
  const FalseTokens: seq<string> := ["false", "no", "0"]

  function BooleanMessage(v: Value): string
  {
    "Value '" + Str(v) + "' (" + TypeName(v) + ") must be boolean!"
  }

  /** `BooleanOption.as_boolean(value)`. */
  function AsBoolean(v: Value): (r: Result<Value>)
    ensures r.Success? ==> r.value.NoneV? || r.value.BoolV?
    ensures r.Failure? ==> r.error == Fail(BooleanMessage(v))
  {
    if v.NoneV? || v.BoolV? then Success(v)
    else if Text.Lower(Str(v)) in TrueTokens then Success(BoolV(true))
    else if Text.Lower(Str(v)) in FalseTokens then Success(BoolV(false))
    else Failure(Fail(BooleanMessage(v)))
  }

  /** A string is accepted exactly when its lower-case form is one of the six tokens. */
  lemma AsBooleanString(s: string)
    ensures AsBoolean(StrV(s)) == Success(BoolV(true)) <==> Text.Lower(s) in TrueTokens
    ensures AsBoolean(StrV(s)) == Success(BoolV(false)) <==> Text.Lower(s) in FalseTokens
    ensures AsBoolean(StrV(s)).Failure? <==> Text.Lower(s) !in TrueTokens + FalseTokens
  {
  }

  /** Because bool is an int, the ints 1 and 0 are True and False; every other int is rejected. */
  lemma AsBooleanInt(i: int)
    ensures i == 1 ==> AsBoolean(IntV(i)) == Success(BoolV(true))
    ensures i == 0 ==> AsBoolean(IntV(i)) == Success(BoolV(false))
    ensures i != 0 && i != 1 ==> AsBoolean(IntV(i)).Failure?
  {
    var s := Text.IntToStr(i);
    IntStrLower(i);
    if i != 0 && i != 1 {
      SingleDigitStr(i);
      assert s[0] == '-' || '0' <= s[0] <= '9' by { IntStrChars(i, 0); }
      assert s !in TrueTokens + FalseTokens by {
        assert forall w :: w in TrueTokens + FalseTokens ==> w == "1" || w == "0" || ('a' <= w[0] <= 'z');
      }
    } else {
      assert s == [Text.DigitChar(i)];
    }
  }

  /** Every character of an int's decimal form is a digit, or the leading minus sign. */
  lemma IntStrChars(i: int, k: nat)
    requires k < |Text.IntToStr(i)|
    ensures Text.IntToStr(i)[k] == '-' || '0' <= Text.IntToStr(i)[k] <= '9'
  {
    if i < 0 && k > 0 {
      assert Text.IntToStr(i)[k] == Text.NatToStr(-i)[k - 1];
    }
  }

  /** An int's decimal form has no upper-case letter. */
  lemma IntStrLower(i: int)
    ensures Text.Lower(Text.IntToStr(i)) == Text.IntToStr(i)
  {
    var s := Text.IntToStr(i);
    forall k | 0 <= k < |s| ensures Text.Lower(s)[k] == s[k] {
      IntStrChars(i, k);
    }
  }

  /** The only ints whose decimal form is one character long are 0 to 9. */
  lemma SingleDigitStr(i: int)
    requires i != 0 && i != 1
    ensures Text.IntToStr(i) != "0" && Text.IntToStr(i) != "1"
    ensures |Text.IntToStr(i)| == 1 ==> Text.IntToStr(i)[0] != '0' && Text.IntToStr(i)[0] != '1'
  {
    if i >= 10 {
      assert Text.IntToStr(i) == Text.NatToStr(i / 10) + [Text.DigitChar(i % 10)];
    }
  }

  /** as_boolean is idempotent: converting its result again changes nothing. */
  lemma AsBooleanIdempotent(v: Value)
    requires AsBoolean(v).Success?
    ensures AsBoolean(AsBoolean(v).value) == AsBoolean(v)
  {
  }

  // ---------------------------------------------------------------- numeric

  /** Value of a digit character in bases up to 36, or 99 for a non-digit. */
  function DigitVal(c: char): int
  {
    if '0' <= c <= '9' then c as int - '0' as int
    else if 'a' <= c <= 'z' then c as int - 'a' as int + 10
    else if 'A' <= c <= 'Z' then c as int - 'A' as int + 10
    else 99
  }

  predicate DigitsIn(d: string, base: nat)
  {
    forall k :: 0 <= k < |d| ==> d[k] == '_' || 0 <= DigitVal(d[k]) < base
  }

  /** Digits in `base`, with single underscores allowed between digits. */
  predicate ValidDigits(d: string, base: nat)
  {
    |d| > 0 && d[0] != '_' && d[|d| - 1] != '_' && DigitsIn(d, base) &&
    forall k :: 0 <= k < |d| - 1 ==> !(d[k] == '_' && d[k + 1] == '_')
  }

  /** The number the digits spell, underscores ignored. */
  function DigitsValue(d: string, base: nat): nat
    requires DigitsIn(d, base)
  {
    if |d| == 0 then 0
    else if d[|d| - 1] == '_' then DigitsValue(d[..|d| - 1], base)
    else DigitsValue(d[..|d| - 1], base) * base + DigitVal(d[|d| - 1])
  }

  /** Digits after a `0x`/`0o`/`0b` prefix, which may be followed by one underscore. */
  function Radix(d: string, base: nat): Option<nat>
  {
    var digits := if |d| > 0 && d[0] == '_' then d[1..] else d;
    if ValidDigits(digits, base) then Some(DigitsValue(digits, base)) else None
  }

  predicate IsPrefixed(b: string, lower: char, upper: char)
  {
    |b| >= 2 && b[0] == '0' && (b[1] == lower || b[1] == upper)
  }

  /** An unsigned integer literal; a decimal literal may not have a leading zero unless it is zero. */
  function ParseUnsigned(b: string): Option<nat>
  {
    if IsPrefixed(b, 'x', 'X') then Radix(b[2..], 16)
    else if IsPrefixed(b, 'o', 'O') then Radix(b[2..], 8)
    else if IsPrefixed(b, 'b', 'B') then Radix(b[2..], 2)
    else if ValidDigits(b, 10) && (b[0] != '0' || forall k :: 0 <= k < |b| ==> b[k] == '0' || b[k] == '_') then
      Some(DigitsValue(b, 10))
    else None
  }

  /** `int(s, 0)`: surrounding whitespace, an optional sign, then a literal. */
  function ParseIntLiteral(s: string): Option<int>
  {
    var t := Text.Strip(s);
    if |t| > 0 && (t[0] == '+' || t[0] == '-') then
      match ParseUnsigned(t[1..])
      case None => None
      case Some(n) =>
        var m: int := if t[0] == '-' then -(n as int) else n as int;
        Some(m)
    else
      match ParseUnsigned(t)
      case None => None
      case Some(n) => Some(n)
  }

  lemma {:induction false} DigitsOfNatToStr(n: nat)
    ensures DigitsIn(Text.NatToStr(n), 10)
    ensures DigitsValue(Text.NatToStr(n), 10) == n
    decreases n
  {
    var d := Text.NatToStr(n);
    if n >= 10 {
      DigitsOfNatToStr(n / 10);
      assert d[..|d| - 1] == Text.NatToStr(n / 10);
    } else {
      assert d[..0] == "";
    }
  }

  /** The decimal digits of a natural number parse back to it. */
  lemma ParseUnsignedNatToStr(n: nat)
    ensures ParseUnsigned(Text.NatToStr(n)) == Some(n)
  {
    var d := Text.NatToStr(n);
    DigitsOfNatToStr(n);
    assert !IsPrefixed(d, 'x', 'X') && !IsPrefixed(d, 'o', 'O') && !IsPrefixed(d, 'b', 'B');
    assert ValidDigits(d, 10);
  }

  /** `int(str(i), 0) == i`: the literal parser inverts Python's str() of an int. */
  lemma ParseIntToStr(i: int)
    ensures ParseIntLiteral(Text.IntToStr(i)) == Some(i)
  {
    var s := Text.IntToStr(i);
    var n: nat := if i < 0 then -i else i;
    var d := Text.NatToStr(n);
    ParseUnsignedNatToStr(n);
    if i < 0 {
      assert s == "-" + d;
      assert s[|s| - 1] == d[|d| - 1];
      Text.StripNoSpace(s);
      assert s[1..] == d;
    } else {
      assert s == d;
      Text.StripNoSpace(s);
    }
  }

  function NumericMessage(v: Value): string
  {
    "Value '" + Str(v) + "' (" + TypeName(v) + ") must be numeric!"
  }

  /** `NumericOption.as_numeric_value(value)`; floats are not modelled. */
  function AsNumericValue(v: Value): (r: Result<Value>)
    ensures r.Success? ==> r.value.NoneV? || IsNumber(r.value)
    ensures r.Success? <==> (v.NoneV? || IsNumber(v) || (v.StrV? && ParseIntLiteral(v.s).Some?))
    ensures r.Failure? ==> r.error == Fail(NumericMessage(v))
  {
    match v
    case NoneV => Success(v)
    case BoolV(_) => Success(v)
    case IntV(_) => Success(v)
    case StrV(s) =>
      (match ParseIntLiteral(s)
       case Some(n) => Success(IntV(n))
       case None => Failure(Fail(NumericMessage(v))))
    case _ => Failure(Fail(NumericMessage(v)))
  }

  /** The numeric option's stored input str(v) converts back to the same number. */
  lemma NumericInputRoundTrip(i: int)
    ensures AsNumericValue(StrV(Str(IntV(i)))) == Success(IntV(i))
  {
    ParseIntToStr(i);
  }

  /** The bounds test of the numeric value setter; None is not comparable with a bound. */
  function BoundsError(minimum: Option<int>, maximum: Option<int>, fullname: string, nv: Value): (r: Option<Error>)
    requires nv.NoneV? || IsNumber(nv)
    ensures r.None? <==>
      (minimum.None? || (IsNumber(nv) && NumVal(nv) >= minimum.value)) &&
      (maximum.None? || (IsNumber(nv) && NumVal(nv) <= maximum.value))
  {
    if minimum.Some? && nv.NoneV? then
      Some(Raised(TypeError, "'<' not supported between instances of 'NoneType' and 'int'"))
    else if minimum.Some? && NumVal(nv) < minimum.value then
      Some(Fail("Value '" + Str(nv) + "' of '" + fullname + "' must be greater than '" + Text.IntToStr(minimum.value) + "'"))
    else if maximum.Some? && nv.NoneV? then
      Some(Raised(TypeError, "'>' not supported between instances of 'NoneType' and 'int'"))
    else if maximum.Some? && NumVal(nv) > maximum.value then
      Some(Fail("Value '" + Str(nv) + "' of '" + fullname + "' must be smaller than '" + Text.IntToStr(maximum.value) + "'"))
    else None
  }

  // ----------------------------------------------------------- enumeration

  /** An insertion-ordered dict from strings to values. */
  type Table = seq<(string, Value)>

  function Keys(t: Table): (r: seq<string>)
    ensures |r| == |t|
    ensures forall i :: 0 <= i < |t| ==> r[i] == t[i].0
  {
    if |t| == 0 then [] else [t[0].0] + Keys(t[1..])
  }

  predicate DistinctKeys(t: Table)
  {
    forall i, j :: 0 <= i < j < |t| ==> t[i].0 != t[j].0
  }

  /** `t.get(k)`. */
  function Lookup(t: Table, k: string): (r: Option<Value>)
    ensures r.None? <==> k !in Keys(t)
  {
    if |t| == 0 then None
    else if t[0].0 == k then Some(t[0].1)
    else Lookup(t[1..], k)
  }

  /** `t[k] = v`: an existing key keeps its place, a new key goes last. */
  function Put(t: Table, k: string, v: Value): (r: Table)
    ensures Lookup(r, k) == Some(v)
    ensures forall x :: x in Keys(r) <==> x in Keys(t) || x == k
  {
    if |t| == 0 then [(k, v)]
    else if t[0].0 == k then
      assert ([(k, v)] + t[1..])[1..] == t[1..];
      [(k, v)] + t[1..]
    else
      var rest := Put(t[1..], k, v);
      assert ([t[0]] + rest)[1..] == rest;
      [t[0]] + rest
  }

  /** Putting one key leaves the other keys' values alone. */
  lemma {:induction false} PutOther(t: Table, k: string, v: Value, other: string)
    requires other != k
    ensures Lookup(Put(t, k, v), other) == Lookup(t, other)
    decreases |t|
  {
    if |t| > 0 && t[0].0 != k {
      PutOther(t[1..], k, v, other);
      assert ([t[0]] + Put(t[1..], k, v))[1..] == Put(t[1..], k, v);
    }
  }

  /** `_obj_to_str(obj)`: an Enum class has no `name` and raises. */
  function ObjToStr(v: Value): (r: Result<string>)
    ensures r.Success? <==> !v.EnumClassV?
    ensures r.Success? ==> r.value == ItemKey(v)
  {
    if v.EnumClassV? then Failure(Raised(OtherError, "AttributeError: name"))
    else Success(ItemKey(v))
  }

  function NotSupported(e: Value): Error
  {
    Fail("Type " + TypeName(e) + " currently not supported")
  }

  /** No two elements are equal, so that `len(e) == len(set(e))`. */
  predicate Distinct(items: seq<Value>)
  {
    forall i, j :: 0 <= i < j < |items| ==> !PyEq(items[i], items[j])
  }

  /** `{keys[i]: values[i] for i in ...}`, left to right: a repeated key keeps its first place and its last value. */
  function FromPairs(keys: seq<string>, values: seq<Value>): (t: Table)
    requires |keys| == |values|
    ensures forall x :: x in Keys(t) <==> x in keys
  {
    if |keys| == 0 then []
    else
      var n := |keys| - 1;
      assert keys == keys[..n] + [keys[n]];
      Put(FromPairs(keys[..n], values[..n]), keys[n], values[n])
  }

  /** With pairwise different keys, every key finds its own value. */
  lemma {:induction false} FromPairsLookup(keys: seq<string>, values: seq<Value>, i: nat)
    requires |keys| == |values| && i < |keys|
    requires forall a, b :: 0 <= a < b < |keys| ==> keys[a] != keys[b]
    ensures Lookup(FromPairs(keys, values), keys[i]) == Some(values[i])
    decreases |keys|
  {
    var n := |keys| - 1;
    var ks, vs := keys[..n], values[..n];
    var rest := FromPairs(ks, vs);
    assert FromPairs(keys, values) == Put(rest, keys[n], values[n]);
    if i < n {
      assert ks[i] == keys[i] && vs[i] == values[i];
      assert forall a, b :: 0 <= a < b < |ks| ==> ks[a] != ks[b] by {
        forall a, b | 0 <= a < b < |ks| ensures ks[a] != ks[b] {
          assert ks[a] == keys[a] && ks[b] == keys[b];
        }
      }
      FromPairsLookup(ks, vs, i);
      PutOther(rest, keys[n], values[n], keys[i]);
    }
  }

  /** The key `_obj_to_str` gives an element that is not an Enum class. */
  function ItemKey(v: Value): string
  {
    Text.Strip(Str(v))
  }

  function ItemKeys(items: seq<Value>): (r: seq<string>)
    ensures |r| == |items|
    ensures forall i :: 0 <= i < |items| ==> r[i] == ItemKey(items[i])
  {
    seq(|items|, i requires 0 <= i < |items| => ItemKey(items[i]))
  }

  /** `str(member).strip()` of an Enum member: `Class.member`. */
  function MemberKey(cls: string, name: string): string
  {
    Text.Strip(cls + "." + name)
  }

  /** `{str(entry).strip(): entry.value for entry in enum_class}`. */
  function FromMembers(cls: string, members: seq<(string, Value)>): (t: Table)
    ensures forall i :: 0 <= i < |members| ==> MemberKey(cls, members[i].0) in Keys(t)
  {
    var keys := seq(|members|, i requires 0 <= i < |members| => MemberKey(cls, members[i].0));
    var values := seq(|members|, i requires 0 <= i < |members| => members[i].1);
    var t := FromPairs(keys, values);
    forall i | 0 <= i < |members| ensures MemberKey(cls, members[i].0) in Keys(t) {
      assert keys[i] in keys;
    }
    t
  }

  /** `{_obj_to_str(entry): entry for entry in items}`; an Enum class among the items raises. */
  function FromItems(items: seq<Value>): (r: Result<Table>)
    ensures r.Success? <==> forall i :: 0 <= i < |items| ==> !items[i].EnumClassV?
    ensures r.Success? ==> r.value == FromPairs(ItemKeys(items), items)
  {
    if exists i :: 0 <= i < |items| && items[i].EnumClassV? then
      Failure(Raised(OtherError, "AttributeError: name"))
    else Success(FromPairs(ItemKeys(items), items))
  }

  function FromDict(entries: seq<(Value, Value)>): (t: Table)
    requires forall i :: 0 <= i < |entries| ==> entries[i].0.StrV?
    ensures |t| == |entries|
    ensures forall i :: 0 <= i < |entries| ==> t[i] == (entries[i].0.s, entries[i].1)
  {
    seq(|entries|, i requires 0 <= i < |entries| => (entries[i].0.s, entries[i].1))
  }

  /** The key map `EnumerationOption.__init__` builds from its `enumeration` argument. */
  function EnumTable(e: Value): (r: Result<Table>)
    ensures e.DictV? ==>
      (r.Success? <==> forall i :: 0 <= i < |e.entries| ==> e.entries[i].0.StrV?)
    ensures e.SeqV? && e.kind != IterKind && r.Success? ==> Distinct(e.items)
    ensures !e.EnumClassV? && !e.DictV? && !(e.SeqV? && e.kind != IterKind) ==> r == Failure(NotSupported(e))
  {
    match e
    case EnumClassV(cls, members) => Success(FromMembers(cls, members))
    case SeqV(kind, items) =>
      if kind == IterKind then Failure(NotSupported(e))
      else if !(forall i :: 0 <= i < |items| ==> Hashable(items[i])) then
        Failure(Raised(TypeError, "unhashable type"))
      else if !Distinct(items) then Failure(NotSupported(e))
      else FromItems(items)
    case DictV(entries) =>
      if forall i :: 0 <= i < |entries| ==> entries[i].0.StrV? then Success(FromDict(entries))
      else Failure(Fail("All enumeration keys must be of type string!"))
    case _ => Failure(NotSupported(e))
  }

  /** When no two elements share a key, looking an element's key up gives that element. */
  lemma FromItemsLookup(items: seq<Value>, i: nat)
    requires FromItems(items).Success? && i < |items|
    requires forall a, b :: 0 <= a < b < |items| ==> ItemKey(items[a]) != ItemKey(items[b])
    ensures Lookup(FromItems(items).value, ItemKey(items[i])) == Some(items[i])
  {
    FromPairsLookup(ItemKeys(items), items, i);
  }

  function EnumerationMessage(t: Table, fullname: string, v: Value): string
  {
    "Value '" + fullname + "' not found in enumeration '" + Str(v) + "'. Possible values are:\n'" +
    Text.Join(Keys(t), "', '") + "'."
  }

  /** `EnumerationOption.as_enumeration(value)`. */
  function AsEnumeration(t: Table, fullname: string, v: Value): (r: Result<Value>)
    ensures !v.EnumClassV? ==> (r.Success? <==> ItemKey(v) in Keys(t))
    ensures !v.EnumClassV? && r.Failure? ==> r.error == Fail(EnumerationMessage(t, fullname, v))
  {
    var k :- ObjToStr(v);
    match Lookup(t, k)
    case Some(x) => Success(x)
    case None => Failure(Fail(EnumerationMessage(t, fullname, v)))
  }

  /** An element of a list enumeration converts to itself. */
  lemma EnumerationOfItem(items: seq<Value>, fullname: string, i: nat)
    requires FromItems(items).Success? && i < |items|
    requires forall a, b :: 0 <= a < b < |items| ==> ItemKey(items[a]) != ItemKey(items[b])
    ensures AsEnumeration(FromItems(items).value, fullname, items[i]) == Success(items[i])
  {
    FromItemsLookup(items, i);
  }

  /** Every key, given as a string, converts to the value stored under it. */
  lemma EnumerationOfKey(items: seq<Value>, fullname: string, i: nat)
    requires FromItems(items).Success? && i < |items|
    ensures var k := ItemKey(items[i]);
      Lookup(FromItems(items).value, k).Some? &&
      AsEnumeration(FromItems(items).value, fullname, StrV(k)) == Success(Lookup(FromItems(items).value, k).value)
  {
    var k := ItemKey(items[i]);
    assert ItemKeys(items)[i] == k;
    Text.StripIdempotent(Str(items[i]));
    assert ItemKey(StrV(k)) == k;
  }

  // ------------------------------------------------------------------- sets

  /** `SetOption.str_to_set(values)`. */
  function StrToSet(v: Value): (r: seq<string>)
    ensures v.StrV? ==> |r| == |Text.Split(v.s, ",")|
    ensures v.StrV? ==> forall i :: 0 <= i < |r| ==> r[i] == Text.Strip(Text.Split(v.s, ",")[i])
    ensures !v.StrV? ==> r == StrAll(Utils.Listify([v]))
  {
    if v.StrV? then
      var parts := Text.Split(v.s, ",");
      seq(|parts|, i requires 0 <= i < |parts| => Text.Strip(parts[i]))
    else StrAll(Utils.Listify([v]))
  }

  /** `list(OrderedDict.fromkeys(xs))`: first occurrences, in order. */
  function Dedup(xs: seq<string>): (r: seq<string>)
    ensures forall x :: x in r <==> x in xs
    ensures forall i, j :: 0 <= i < j < |r| ==> r[i] != r[j]
  {
    if |xs| == 0 then []
    else
      var n := |xs| - 1;
      var r := Dedup(xs[..n]);
      assert xs == xs[..n] + [xs[n]];
      if xs[n] in r then r else r + [xs[n]]
  }

  /** Index of the first occurrence of `x`. */
  function FirstIndex(xs: seq<string>, x: string): (i: nat)
    requires x in xs
    ensures i < |xs| && xs[i] == x && x !in xs[..i]
  {
    if xs[0] == x then 0 else 1 + FirstIndex(xs[1..], x)
  }

  lemma FirstIndexPrefix(xs: seq<string>, n: nat, x: string)
    requires n <= |xs| && x in xs[..n]
    ensures FirstIndex(xs, x) == FirstIndex(xs[..n], x)
  {
    var i := FirstIndex(xs[..n], x);
    assert xs[..n][..i] == xs[..i];
  }

  /** Dedup keeps the order of first occurrences. */
  lemma {:induction false} DedupOrder(xs: seq<string>)
    ensures forall i, j :: 0 <= i < j < |Dedup(xs)| ==> FirstIndex(xs, Dedup(xs)[i]) < FirstIndex(xs, Dedup(xs)[j])
    decreases |xs|
  {
    if |xs| > 0 {
      var n := |xs| - 1;
      var pre := xs[..n];
      var p := Dedup(pre);
      DedupOrder(pre);
      DedupOrderPrefix(xs, n, p);
      if xs[n] !in p {
        DedupOrderLast(xs, n, p);
      }
    }
  }

  /** First occurrences in a prefix are first occurrences in the whole list. */
  lemma DedupOrderPrefix(xs: seq<string>, n: nat, p: seq<string>)
    requires n < |xs| && forall x :: x in p ==> x in xs[..n]
    requires forall i, j :: 0 <= i < j < |p| ==> FirstIndex(xs[..n], p[i]) < FirstIndex(xs[..n], p[j])
    ensures forall k :: 0 <= k < |p| ==> p[k] in xs && FirstIndex(xs, p[k]) == FirstIndex(xs[..n], p[k]) < n
    ensures forall i, j :: 0 <= i < j < |p| ==> FirstIndex(xs, p[i]) < FirstIndex(xs, p[j])
  {
    forall k | 0 <= k < |p| ensures p[k] in xs && FirstIndex(xs, p[k]) == FirstIndex(xs[..n], p[k]) < n {
      assert p[k] in xs[..n];
      FirstIndexPrefix(xs, n, p[k]);
    }
  }

  lemma DedupOrderLast(xs: seq<string>, n: nat, p: seq<string>)
    requires n == |xs| - 1 && p == Dedup(xs[..n]) && xs[n] !in p
    requires forall k :: 0 <= k < |p| ==> p[k] in xs && FirstIndex(xs, p[k]) < n
    requires forall i, j :: 0 <= i < j < |p| ==> FirstIndex(xs, p[i]) < FirstIndex(xs, p[j])
    ensures forall i, j :: 0 <= i < j < |Dedup(xs)| ==> FirstIndex(xs, Dedup(xs)[i]) < FirstIndex(xs, Dedup(xs)[j])
  {
    assert xs == xs[..n] + [xs[n]];
    assert xs[n] !in xs[..n];
    assert FirstIndex(xs, xs[n]) == n;
    var r := p + [xs[n]];
    assert Dedup(xs) == r;
    forall i, j | 0 <= i < j < |r| ensures FirstIndex(xs, r[i]) < FirstIndex(xs, r[j]) {
      assert r[i] == p[i];
      if j < |p| {
        assert r[j] == p[j];
      }
    }
  }

  /** A duplicate-free list is its own dedup, so dedup is idempotent. */
  lemma {:induction false} DedupDistinct(xs: seq<string>)
    requires forall i, j :: 0 <= i < j < |xs| ==> xs[i] != xs[j]
    ensures Dedup(xs) == xs
    decreases |xs|
  {
    if |xs| > 0 {
      var n := |xs| - 1;
      DedupDistinct(xs[..n]);
      assert xs[n] !in xs[..n];
      assert xs[..n] + [xs[n]] == xs;
    }
  }

  lemma DedupIdempotent(xs: seq<string>)
    ensures Dedup(Dedup(xs)) == Dedup(xs)
  {
    DedupDistinct(Dedup(xs));
  }

  /** `[as_enumeration(x) for x in keys]`, stopping at the first failure. */
  function EnumerateAll(t: Table, fullname: string, keys: seq<string>): (r: Result<seq<Value>>)
    ensures r.Success? <==> forall i :: 0 <= i < |keys| ==> AsEnumeration(t, fullname, StrV(keys[i])).Success?
    ensures r.Success? ==> (|r.value| == |keys| &&
      forall i :: 0 <= i < |keys| ==> r.value[i] == AsEnumeration(t, fullname, StrV(keys[i])).value)
  {
    if |keys| == 0 then Success([])
    else
      match AsEnumeration(t, fullname, StrV(keys[0]))
      case Failure(e) => Failure(e)
      case Success(x) =>
        match EnumerateAll(t, fullname, keys[1..])
        case Failure(e) =>
          assert forall i :: 0 <= i < |keys| - 1 ==> keys[1..][i] == keys[i + 1];
          Failure(e)
        case Success(rest) => Success([x] + rest)
  }

  /** `SetOption.as_set(values)`. */
  function AsSet(t: Table, fullname: string, v: Value): (r: Result<Value>)
    ensures r.Success? ==> (r.value.SeqV? && r.value.kind == ListKind &&
      |r.value.items| == |Dedup(StrToSet(v))|)
  {
    var items :- EnumerateAll(t, fullname, Dedup(StrToSet(v)));
    Success(SeqV(ListKind, items))
  }

  // --------------------------------------------------------------- options

  datatype OptionKind =
    | StringOption
    | BooleanOption
    | NumericOption(minimum: Option<int>, maximum: Option<int>)
    | EnumerationOption(table: Table)
    | SetOption(table: Table)
    | CallableOption                  // `CallableCollector`: in is `as_callable`, out the identity

  /**
   * The value state of an option: the converted input, the converted output
   * that modules read, the converted default (None when there is none) and
   * the dependency handler.
   */
  datatype OptionData = OptionData(kind: OptionKind, input: Value, output: Value,
                                   defaultInput: Value, handler: Option<Handler>)

  /**
   * A dependency handler, given as what `listify(handler(input))` yields:
   * the module names, or the exception the handler raises.
   */
  type Handler = Value -> Result<seq<string>>

  /** Python's `callable(v)`: functions and classes (an Enum class is one). */
  predicate Callable(v: Value)
  {
    v.FuncV? || v.EnumClassV?
  }

  /** `CallableCollector.as_callable(func)`. */
  function AsCallable(v: Value): (r: Result<Value>)
    ensures r.Success? <==> Callable(v)
    ensures r.Success? ==> r.value == v
    ensures r.Failure? ==> r.error == Raised(ValueError, "Object '" + Str(v) + "' must be callable!")
  {
    if Callable(v) then Success(v)
    else Failure(Raised(ValueError, "Object '" + Str(v) + "' must be callable!"))
  }

  /** `self._in(value)`. */
  function ConvertIn(kind: OptionKind, v: Value): Result<Value>
  {
    match kind
    case StringOption => Success(StrV(Str(v)))
    case BooleanOption => AsBoolean(v)
    case NumericOption(_, _) => Success(StrV(Str(v)))
    case EnumerationOption(_) =>
      var s :- ObjToStr(v);
      Success(StrV(s))
    case SetOption(_) => Success(SeqV(ListKind, StrValues(StrToSet(v))))
    case CallableOption => AsCallable(v)
  }

  /** `self._out(value)`. */
  function ConvertOut(kind: OptionKind, fullname: string, v: Value): Result<Value>
  {
    match kind
    case StringOption => Success(StrV(Str(v)))
    case BooleanOption => AsBoolean(v)
    case NumericOption(_, _) => AsNumericValue(v)
    case EnumerationOption(t) => AsEnumeration(t, fullname, v)
    case SetOption(t) => AsSet(t, fullname, v)
    case CallableOption => Success(v)
  }

  /** `value` getter. */
  function Output(o: OptionData): Value
  {
    o.output
  }

  /** `is_default()`: the converted input equals the converted default. */
  predicate IsDefault(o: OptionData)
  {
    PyEq(o.input, o.defaultInput)
  }

  /** An option whose value is None must be set by the configuration. */
  predicate IsRequired(o: OptionData)
  {
    o.output.NoneV?
  }

  /** `_set_default(default)`: None leaves the option as it is. */
  function SetDefault(o: OptionData, name: string, default: Value): (r: Result<OptionData>)
    ensures default.NoneV? ==> r == Success(o)
    ensures !default.NoneV? ==>
      (r.Success? <==> ConvertIn(o.kind, default).Success? && ConvertOut(o.kind, name, default).Success?)
    ensures !default.NoneV? && r.Success? ==>
      r.value == o.(input := ConvertIn(o.kind, default).value,
                    output := ConvertOut(o.kind, name, default).value,
                    defaultInput := ConvertIn(o.kind, default).value)
  {
    if default.NoneV? then Success(o)
    else
      var i :- ConvertIn(o.kind, default);
      var out :- ConvertOut(o.kind, name, default);
      Success(o.(input := i, output := out, defaultInput := i))
  }

  /** What the constructor of each option class is given besides name and default. */
  datatype OptionSpec =
    | StringSpec
    | BooleanSpec
    | NumericSpec(minimum: Option<int>, maximum: Option<int>)
    | EnumerationSpec(enumeration: Value)
    | SetSpec(enumeration: Value)

  function Blank(kind: OptionKind, handler: Option<Handler>): OptionData
  {
    OptionData(kind, NoneV, NoneV, NoneV, handler)
  }

  /**
   * The option constructors: the default is converted first, then a numeric
   * option checks its bounds; an enumeration builds its key map before the
   * default is converted.
   */
  function NewOption(name: string, spec: OptionSpec, default: Value,
                     handler: Option<Handler>): (r: Result<OptionData>)
    ensures r.Success? ==> r.value.handler == handler
    ensures (spec.NumericSpec? && spec.minimum.Some? && spec.maximum.Some? &&
             spec.minimum.value >= spec.maximum.value) ==> r.Failure?
    ensures spec.EnumerationSpec? && EnumTable(spec.enumeration).Failure? ==> r.Failure?
  {
    match spec
    case StringSpec => SetDefault(Blank(StringOption, handler), name, default)
    case BooleanSpec => SetDefault(Blank(BooleanOption, handler), name, default)
    case NumericSpec(lo, hi) =>
      var o :- SetDefault(Blank(NumericOption(lo, hi), handler), name, default);
      if lo.Some? && hi.Some? && lo.value >= hi.value then
        Failure(Fail("Minimum '" + Text.IntToStr(lo.value) + "' must be smaller than maximum '" +
                     Text.IntToStr(hi.value) + "'!"))
      else Success(o)
    case EnumerationSpec(e) =>
      var t :- EnumTable(e);
      SetDefault(Blank(EnumerationOption(t), handler), name, default)
    case SetSpec(e) =>
      var t :- EnumTable(e);
      SetDefault(Blank(SetOption(t), handler), name, default)
  }

  /** Without a default a new option is REQUIRED, and it counts as being at its default. */
  lemma NoDefaultIsRequired(name: string, spec: OptionSpec, handler: Option<Handler>)
    requires NewOption(name, spec, NoneV, handler).Success?
    ensures IsRequired(NewOption(name, spec, NoneV, handler).value)
    ensures IsDefault(NewOption(name, spec, NoneV, handler).value)
  {
  }

  /** The `default` each constructor takes when none is passed: `False` for a boolean option, `None` otherwise. */
  function DefaultArgument(spec: OptionSpec): (r: Value)
    ensures r.NoneV? <==> !spec.BooleanSpec?
  {
    if spec.BooleanSpec? then BoolV(false) else NoneV
  }

  /**
   * Constructed with its own default argument, a boolean option is `False`
   * and never required; every other kind is required.
   */
  lemma OmittedDefault(name: string, spec: OptionSpec, handler: Option<Handler>)
    ensures spec.BooleanSpec? ==> NewOption(name, spec, DefaultArgument(spec), handler).Success?
    ensures var r := NewOption(name, spec, DefaultArgument(spec), handler);
      r.Success? ==> (IsRequired(r.value) <==> !spec.BooleanSpec?)
    ensures spec.BooleanSpec? ==> NewOption(name, spec, DefaultArgument(spec), handler).value.output == BoolV(false)
  {
    if !spec.BooleanSpec? && NewOption(name, spec, NoneV, handler).Success? {
      NoDefaultIsRequired(name, spec, handler);
    }
  }

  /** A freshly constructed option with a default is at its default. */
  lemma NewOptionIsDefault(name: string, spec: OptionSpec, default: Value, handler: Option<Handler>)
    requires NewOption(name, spec, default, handler).Success?
    ensures IsDefault(NewOption(name, spec, default, handler).value)
  {
    PyEqReflexive(NewOption(name, spec, default, handler).value.input);
  }

  /** The outcome of the value setter: the state afterwards, and the exception raised, if any. */
  datatype Assigned = Assigned(option: OptionData, error: Option<Error>)

  /** The numeric setter's checks, which run before anything is stored. */
  function PreCheck(kind: OptionKind, fullname: string, v: Value): (r: Option<Error>)
    ensures !kind.NumericOption? ==> r.None?
  {
    if kind.NumericOption? then
      match AsNumericValue(v)
      case Failure(e) => Some(e)
      case Success(nv) => BoundsError(kind.minimum, kind.maximum, fullname, nv)
    else None
  }

  /**
   * The `value` setter. A failing conversion of the output comes after the
   * input is stored, so the input stays changed.
   */
  function SetValue(o: OptionData, fullname: string, v: Value): (r: Assigned)
    ensures r.option.kind == o.kind && r.option.defaultInput == o.defaultInput
    ensures r.option.handler == o.handler
    ensures r.error.None? <==>
      PreCheck(o.kind, fullname, v).None? && ConvertIn(o.kind, v).Success? &&
      ConvertOut(o.kind, fullname, v).Success?
    ensures r.error.None? ==>
      r.option.input == ConvertIn(o.kind, v).value &&
      r.option.output == ConvertOut(o.kind, fullname, v).value
    ensures PreCheck(o.kind, fullname, v).Some? || ConvertIn(o.kind, v).Failure? ==>
      r.option == o
    ensures PreCheck(o.kind, fullname, v).None? && ConvertIn(o.kind, v).Success? ==>
      r.option.input == ConvertIn(o.kind, v).value
  {
    var check := PreCheck(o.kind, fullname, v);
    if check.Some? then Assigned(o, check)
    else
      match ConvertIn(o.kind, v)
      case Failure(e) => Assigned(o, Some(e))
      case Success(i) =>
        match ConvertOut(o.kind, fullname, v)
        case Failure(e) => Assigned(o.(input := i), Some(e))
        case Success(out) => Assigned(o.(input := i, output := out), None)
  }

  /** A numeric option accepts exactly the ints within its inclusive bounds. */
  lemma NumericBounds(o: OptionData, fullname: string, i: int)
    requires o.kind.NumericOption?
    ensures var r := SetValue(o, fullname, IntV(i));
      r.error.None? <==>
        (o.kind.minimum.None? || o.kind.minimum.value <= i) &&
        (o.kind.maximum.None? || i <= o.kind.maximum.value)
    ensures var r := SetValue(o, fullname, IntV(i));
      r.error.None? ==> Output(r.option) == IntV(i)
    ensures var r := SetValue(o, fullname, IntV(i));
      r.error.Some? ==> r.option == o
  {
  }

  /** `_update_dependencies()`: the names the handler gives for the new input, or what it raises. */
  function HandlerNames(o: OptionData): (r: Result<seq<string>>)
    ensures o.handler.None? ==> r == Success([])
  {
    if o.handler.Some? then o.handler.value(o.input) else Success([])
  }

  /** The names a value change appends to the option's dependencies: none when the handler raises. */
  function AddedNames(o: OptionData): seq<string>
  {
    var h := HandlerNames(o);
    if h.Success? then h.value else []
  }

  /**
   * The exception the whole setter raises: a failed conversion, else
   * whatever the dependency handler raises.
   */
  function SetterError(a: Assigned): (r: Option<Error>)
    ensures a.error.Some? ==> r == a.error
    ensures a.error.None? ==> (r.None? <==> HandlerNames(a.option).Success?)
  {
    if a.error.Some? then a.error
    else
      var h := HandlerNames(a.option);
      if h.Failure? then Some(h.error) else None
  }
}
