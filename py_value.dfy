/** The Python objects that flow through the modelled code, the parts of
    Python's semantics the code relies on (truthiness, `str()`, `float()`,
    `int()` of a float, `dict.get`), and the behaviour of foreign parsers and
    float formatting, which is passed in as a `Runtime`. */
module PyValue {
  import opened Wrappers
  import opened Text

  /** A Python `float`. */
  datatype Float = NaN | Inf(negative: bool) | Finite(r: real)

  /** A Python object. `Other` stands for any object not listed (a tuple, a
      set, bytes, ...); the modelled code only ever asks whether something is
      a list, a dict or a string. */
  datatype Value =
    | Null
    | Bool(b: bool)
    | Int(n: int)
    | Num(x: Float)
    | Str(s: string)
    | List(items: seq<Value>)
    | Dict(entries: map<string, Value>)
    | Other

  /** What this model does not define itself: the text of a finite float
      (`repr`), `round(x, 1)` on a finite float, `float()` of an `int` (None
      on OverflowError), `float()` of a `str` (None on ValueError), `str()` of
      a list, dict or other object, and the three foreign parsers, each None
      when it raises: `json.loads`, `ast.literal_eval`, and `orjson.loads`
      after its trailing-comma rewrite. */
  datatype Runtime = Runtime(
    floatRepr: real -> string,
    round1: real -> real,
    intToFloat: int -> Option<real>,
    parseFloat: string -> Option<Float>,
    containerStr: Value -> string,
    jsonLoads: string -> Option<Value>,
    literalEval: string -> Option<Value>,
    orjsonLoads: string -> Option<Value>)

  /** Python's `bool(v)`: None, False, zero, the empty text and the empty
      list and dict are false, everything else (a NaN float too) is true. */
  predicate Truthy(v: Value)
  {
    match v
    case Null => false
    case Bool(b) => b
    case Int(n) => n != 0
    case Num(x) => !(x.Finite? && x.r == 0.0)
    case Str(s) => s != ""
    case List(items) => items != []
    case Dict(e) => e != map[]
    case Other => true
  }

  /** The values Python treats as false are exactly None, False, the integer
      and float zero, the empty text and the empty list and dict. */
  lemma FalsyValues(v: Value)
    ensures !Truthy(v) <==>
      v == Null || v == Bool(false) || v == Int(0) || v == Num(Finite(0.0))
      || v == Str("") || v == List([]) || v == Dict(map[])
  {
  }

  /** Python's `a or b`. */
  function Or(a: Value, b: Value): Value {
    if Truthy(a) then a else b
  }

  /** Python's `d.get(k)`: None for a missing key. */
  function Get(d: map<string, Value>, k: string): Value {
    if k in d then d[k] else Null
  }

  /** pandas' `isna` on a scalar. */
  predicate IsNa(v: Value) {
    v == Null || v == Num(NaN)
  }

  // ---------------------------------------------------------------------
  // decimal text of integers

  function DigitChar(d: nat): char
    requires d < 10
  {
    "0123456789"[d]
  }

  predicate IsDigits(s: string) {
    s != [] && forall i :: 0 <= i < |s| ==> '0' <= s[i] <= '9'
  }

  /** The number a string of decimal digits stands for. */
  function DigitsValue(s: string): nat
    requires forall i :: 0 <= i < |s| ==> '0' <= s[i] <= '9'
  {
    if s == [] then 0
    else 10 * DigitsValue(s[..|s| - 1]) + (s[|s| - 1] as int - '0' as int)
  }

  function NatToString(n: nat): (r: string)
    ensures IsDigits(r)
    decreases n
  {
    if n < 10 then [DigitChar(n)] else NatToString(n / 10) + [DigitChar(n % 10)]
  }

  /** `str(n)` of a Python int reads back as `n`. */
  lemma {:induction false} NatToStringValue(n: nat)
    ensures DigitsValue(NatToString(n)) == n
    decreases n
  {
    var r := NatToString(n);
    if n >= 10 {
      NatToStringValue(n / 10);
      assert r[..|r| - 1] == NatToString(n / 10);
    }
  }

  /** `str(n)` of a Python int. */
  function IntToString(n: int): (r: string)
    ensures IsIntegerText(r)
  {
    if n < 0 then "-" + NatToString(-n) else NatToString(n)
  }

  /** An optional minus sign followed by at least one decimal digit. */
  predicate IsIntegerText(s: string) {
    if s != [] && s[0] == '-' then IsDigits(s[1..]) else IsDigits(s)
  }

  /** The integer an integer text stands for. */
  function IntegerValue(s: string): int
    requires IsIntegerText(s)
  {
    if s != [] && s[0] == '-' then -(DigitsValue(s[1..]) as int) else DigitsValue(s)
  }

  /** `str(n)` of a Python int reads back as `n`. */
  lemma IntToStringValue(n: int)
    ensures IntegerValue(IntToString(n)) == n
  {
    if n < 0 {
      assert IntToString(n) == "-" + NatToString(-n);
      NegativeText(-n);
    } else {
      assert IntToString(n) == NatToString(n);
      NonNegativeText(n);
    }
  }

  lemma NonNegativeText(n: nat)
    ensures IntegerValue(NatToString(n)) == n
  {
    var d := NatToString(n);
    assert d[0] != '-';
    NatToStringValue(n);
  }

  lemma NegativeText(m: nat)
    requires m > 0
    ensures IntegerValue("-" + NatToString(m)) == -(m as int)
  {
    var d := NatToString(m);
    var s := "-" + d;
    assert s[1..] == d;
    NatToStringValue(m);
  }

  // ---------------------------------------------------------------------
  // str(), float(), int(), round()

  /** `str()` of a float. */
  function FloatStr(rt: Runtime, x: Float): string {
    match x
    case NaN => "nan"
    case Inf(neg) => if neg then "-inf" else "inf"
    case Finite(r) => rt.floatRepr(r)
  }

  /** `str(v)`. */
  function PyStr(rt: Runtime, v: Value): (r: string)
    ensures v.Null? ==> r == "None"
    ensures v.Int? ==> IsIntegerText(r) && IntegerValue(r) == v.n
    ensures v.Str? ==> r == v.s
  {
    match v
    case Null => "None"
    case Bool(b) => if b then "True" else "False"
    case Int(n) => IntToStringValue(n); IntToString(n)
    case Num(x) => FloatStr(rt, x)
    case Str(s) => s
    case _ => rt.containerStr(v)
  }

  /** `float(v)`, None when it raises. */
  function ToFloat(rt: Runtime, v: Value): (r: Option<Float>)
    ensures v.Bool? ==> r == Some(Finite(if v.b then 1.0 else 0.0))
    ensures v.Num? ==> r == Some(v.x)
    ensures v.Null? || v.List? || v.Dict? || v.Other? ==> r.None?
  {
    match v
    case Bool(b) => Some(Finite(if b then 1.0 else 0.0))
    case Int(n) => (match rt.intToFloat(n) case Some(r) => Some(Finite(r)) case None => None)
    case Num(x) => Some(x)
    case Str(s) => rt.parseFloat(s)
    case _ => None
  }

  /** `round(x, 1)`: NaN and infinities are returned as they are. */
  function Round1(rt: Runtime, x: Float): Float {
    match x
    case Finite(r) => Finite(rt.round1(r))
    case _ => x
  }

  /** `int(x)` of a finite float: truncation toward zero. */
  function Trunc(r: real): (t: int)
    ensures r >= 0.0 ==> 0.0 <= t as real <= r < t as real + 1.0
    ensures r < 0.0 ==> t as real - 1.0 < r <= t as real <= 0.0
  {
    if r >= 0.0 then r.Floor else -((-r).Floor)
  }
}
