/** The dynamically typed values a configuration holds: what a YAML or INI
    loader produces and what Python's isinstance, truthiness and int() see. */
module Values {
  import opened Wrappers
  import opened Strings

  /** A loaded configuration value. Dictionary keys are strings and a
      dictionary keeps its items in insertion order. Floats are modelled as
      reals: NaN and the infinities are not represented. */
  datatype Value =
    | NoneV
    | BoolV(b: bool)
    | IntV(i: int)
    | FloatV(r: real)
    | StrV(s: string)
    | ListV(elems: seq<Value>)
    | DictV(items: seq<Item>)

  datatype Item = Item(key: string, val: Value)

  /** The Python classes a field may be registered with. */
  datatype Kind = KNone | KBool | KInt | KFloat | KStr | KList | KDict

  function KindOf(v: Value): Kind {
    match v
    case NoneV => KNone
    case BoolV(_) => KBool
    case IntV(_) => KInt
    case FloatV(_) => KFloat
    case StrV(_) => KStr
    case ListV(_) => KList
    case DictV(_) => KDict
  }

  /** isinstance(v, kinds): bool is a subclass of int, so a boolean is an
      instance of int as well. */
  predicate IsInstance(v: Value, kinds: set<Kind>) {
    KindOf(v) in kinds || (v.BoolV? && KInt in kinds)
  }

  lemma BoolIsInt(b: bool, kinds: set<Kind>)
    ensures KInt in kinds ==> IsInstance(BoolV(b), kinds)
    ensures IsInstance(BoolV(b), kinds) <==> KBool in kinds || KInt in kinds
  {
  }

  /** Only bool is a subclass of another kind here: every other value is an
      instance exactly when its own class is listed. */
  lemma IsInstanceExact(v: Value, kinds: set<Kind>)
    requires !v.BoolV?
    ensures IsInstance(v, kinds) <==> KindOf(v) in kinds
  {
  }

  /** Python truthiness. */
  predicate Truthy(v: Value) {
    match v
    case NoneV => false
    case BoolV(b) => b
    case IntV(i) => i != 0
    case FloatV(r) => r != 0.0
    case StrV(s) => s != ""
    case ListV(l) => |l| > 0
    case DictV(items) => |items| > 0
  }

  function Keys(items: seq<Item>): (ks: seq<string>)
    ensures |ks| == |items|
    ensures forall i :: 0 <= i < |items| ==> ks[i] == items[i].key
  {
    if items == [] then [] else [items[0].key] + Keys(items[1..])
  }

  /** The keys of a dictionary's items are pairwise different. */
  predicate DistinctKeys(items: seq<Item>) {
    forall i, j :: 0 <= i < j < |items| ==> items[i].key != items[j].key
  }

  /** Float-to-int conversion truncates toward zero. */
  function Truncate(r: real): (n: int)
    ensures 0.0 <= r ==> 0 <= n && n as real <= r < n as real + 1.0
    ensures r < 0.0 ==> n <= 0 && n as real - 1.0 < r <= n as real
  {
    if r >= 0.0 then r.Floor else -((-r).Floor)
  }

  /** Python's int(v): integers pass through, booleans are 0 or 1, floats
      truncate toward zero and strings are parsed as optionally signed
      decimal digits surrounded by whitespace. None, lists and
      dictionaries raise TypeError, and an unparsable string raises
      ValueError; both are None here. */
  function PyInt(v: Value): (r: Option<int>)
    ensures v.IntV? ==> r == Some(v.i)
    ensures v.BoolV? ==> r == Some(if v.b then 1 else 0)
    ensures v.FloatV? ==> r == Some(Truncate(v.r))
    ensures v.StrV? ==> r == ParseInt(v.s)
    ensures v.NoneV? || v.ListV? || v.DictV? ==> r.None?
  {
    match v
    case IntV(i) => Some(i)
    case BoolV(b) => Some(if b then 1 else 0)
    case FloatV(r) => Some(Truncate(r))
    case StrV(s) => ParseInt(s)
    case _ => None
  }

  /** int() of the decimal text of a number gives the number back, and
      int() of an integer-valued float is that integer. */
  lemma PyIntOfText(n: int)
    ensures PyInt(StrV(ShowInt(n))) == Some(n)
    ensures PyInt(FloatV(n as real)) == Some(n)
  {
    ParseShowInt(n);
  }
}
