/**
 * The loosely typed PHP values that travel in a block instance array
 * (`$block`), with the two conversions the renderer applies to them:
 * truthiness (`array_filter` without a callback) and string conversion
 * (`implode` and the `.` operator).
 */
module PhpValues {
  import opened PhpStrings

  /** A PHP value; `List` is a list array, `Dict` an array with string keys. */
  datatype Value =
    | Null
    | Bool(b: bool)
    | Int(i: int)
    | Str(s: string)
    | List(items: seq<Value>)
    | Dict(entries: map<string, Value>)

  /** PHP's boolean conversion. */
  predicate Truthy(v: Value) {
    match v
    case Null => false
    case Bool(b) => b
    case Int(i) => i != 0
    case Str(s) => !Falsy(s)
    case List(items) => |items| > 0
    case Dict(entries) => |entries| > 0
  }

  function DigitChar(d: nat): char
    requires d < 10
  {
    "0123456789"[d]
  }

  /** Decimal digits of a natural number, without leading zeros. */
  function Digits(n: nat): (r: string)
    ensures |r| >= 1
    ensures forall i :: 0 <= i < |r| ==> '0' <= r[i] <= '9'
    decreases n
  {
    if n < 10 then [DigitChar(n)] else Digits(n / 10) + [DigitChar(n % 10)]
  }

  /** PHP's string conversion; an array converts to "Array". */
  function ToStr(v: Value): string {
    match v
    case Null => ""
    case Bool(b) => if b then "1" else ""
    case Int(i) => if i < 0 then "-" + Digits(-i) else Digits(i)
    case Str(s) => s
    case List(_) => "Array"
    case Dict(_) => "Array"
  }

  /** `$a[$k]` on an array with string keys: a missing key reads as null. */
  function Lookup(a: map<string, Value>, k: string): Value {
    if k in a then a[k] else Null
  }

  /** `isset($a[$k])`: the key is present and its value is not null. */
  predicate IsSet(a: map<string, Value>, k: string) {
    k in a && a[k] != Null
  }

  /** `array_filter($vs)` without a callback: keeps the truthy entries in order. */
  function ArrayFilter(vs: seq<Value>): (r: seq<Value>)
    ensures |r| <= |vs|
  {
    if |vs| == 0 then []
    else if Truthy(vs[0]) then [vs[0]] + ArrayFilter(vs[1..])
    else ArrayFilter(vs[1..])
  }

  /** `array_filter` keeps exactly the truthy entries. */
  lemma {:induction false} ArrayFilterMembers(vs: seq<Value>)
    ensures forall v :: v in ArrayFilter(vs) <==> v in vs && Truthy(v)
    decreases |vs|
  {
    if |vs| > 0 {
      ArrayFilterMembers(vs[1..]);
      assert vs == [vs[0]] + vs[1..];
    }
  }

  /** What `array_filter` keeps of one value. */
  function Keep(v: Value): seq<Value> {
    if Truthy(v) then [v] else []
  }

  /** `array_filter` on a single value. */
  lemma ArrayFilterOne(v: Value)
    ensures ArrayFilter([v]) == Keep(v)
  {
    assert [v][1..] == [];
  }

  /** `array_filter` on a four-entry list keeps each entry that is truthy, in order. */
  lemma ArrayFilterFour(a: Value, b: Value, c: Value, d: Value)
    ensures ArrayFilter([a, b, c, d]) == Keep(a) + Keep(b) + Keep(c) + Keep(d)
  {
    assert [a, b, c, d] == [a] + [b] + [c] + [d];
    ArrayFilterAppend([a] + [b] + [c], [d]);
    ArrayFilterAppend([a] + [b], [c]);
    ArrayFilterAppend([a], [b]);
    ArrayFilterOne(a);
    ArrayFilterOne(b);
    ArrayFilterOne(c);
    ArrayFilterOne(d);
  }

  /** `array_filter` distributes over concatenation. */
  lemma {:induction false} ArrayFilterAppend(a: seq<Value>, b: seq<Value>)
    ensures ArrayFilter(a + b) == ArrayFilter(a) + ArrayFilter(b)
    decreases |a|
  {
    if |a| > 0 {
      assert (a + b)[1..] == a[1..] + b;
      ArrayFilterAppend(a[1..], b);
    } else {
      assert a + b == b;
    }
  }

  /** The string forms of a list of values, as `implode` produces them. */
  function Strings(vs: seq<Value>): (r: seq<string>)
    ensures |r| == |vs|
  {
    seq(|vs|, i requires 0 <= i < |vs| => ToStr(vs[i]))
  }

  /** `implode($sep, $vs)` for a one-character separator. */
  function Implode(vs: seq<Value>, sep: char): string {
    Join(Strings(vs), sep)
  }
}
