/** Application events: the parameters of an event and the record that carries them. */
module EventTypes {
  type Micros = n: nat | n < 1_000_000

  /** A float or double, as far as printing with six decimals can tell it from others. */
  datatype Float =
    | Finite(negative: bool, whole: nat, micros: Micros)
    | Infinite(negative: bool)
    | NotANumber(negative: bool)

  datatype Width = Short | Integer | LongLong

  datatype Precision = Single | Double

  datatype Value =
    | Empty
    | Bool(b: bool)
    | Char(c: int)
    | Number(n: int, width: Width)
    | Real(f: Float, precision: Precision)
    | Str(s: string)
    | Bools(bs: seq<bool>)
    | Chars(cs: seq<int>)
    | Numbers(ns: seq<int>, width: Width)
    | Reals(fs: seq<Float>, precision: Precision)
    | Strs(ss: seq<string>)

  /** The number of a value's type. */
  function TypeOf(v: Value): nat {
    match v
    case Empty => 0
    case Bool(_) => 1
    case Char(_) => 2
    case Number(_, width) => WidthFrom(3, width)
    case Real(_, precision) => PrecisionFrom(6, precision)
    case Str(_) => 8
    case Bools(_) => 9
    case Chars(_) => 10
    case Numbers(_, width) => WidthFrom(11, width)
    case Reals(_, precision) => PrecisionFrom(14, precision)
    case Strs(_) => 16
  }

  function WidthFrom(first: nat, width: Width): nat {
    first + match width case Short => 0 case Integer => 1 case LongLong => 2
  }

  function PrecisionFrom(first: nat, precision: Precision): nat {
    first + if precision.Single? then 0 else 1
  }

  /** Scalars are numbered from 0 to 8, and each list has the number of its elements' type and 8 more. */
  lemma TypeNumbers()
    ensures TypeOf(Empty) == 0
    ensures forall b :: TypeOf(Bool(b)) == 1 && forall bs :: TypeOf(Bools(bs)) == TypeOf(Bool(b)) + 8
    ensures forall c :: TypeOf(Char(c)) == 2 && forall cs :: TypeOf(Chars(cs)) == TypeOf(Char(c)) + 8
    ensures forall n ::
              TypeOf(Number(n, Short)) == 3 && TypeOf(Number(n, Integer)) == 4 && TypeOf(Number(n, LongLong)) == 5
    ensures forall f :: TypeOf(Real(f, Single)) == 6 && TypeOf(Real(f, Double)) == 7
    ensures forall s :: TypeOf(Str(s)) == 8 && forall ss :: TypeOf(Strs(ss)) == TypeOf(Str(s)) + 8
    ensures forall n, ns, w :: TypeOf(Numbers(ns, w)) == TypeOf(Number(n, w)) + 8
    ensures forall f, fs, p :: TypeOf(Reals(fs, p)) == TypeOf(Real(f, p)) + 8
  {
  }

  datatype Param = Param(name: string, value: Value)

  class AppEventPack {
    var domain: string
    var name: string
    var kind: int
    var time: nat
    var timeZone: string
    var pid: int
    var tid: nat
    var baseParams: seq<Param>
    var paramStr: string

    constructor (domain: string, name: string, kind: int, time: nat, timeZone: string, pid: int, tid: nat)
      ensures this.domain == domain && this.name == name && this.kind == kind && this.time == time
      ensures this.timeZone == timeZone && this.pid == pid && this.tid == tid
      ensures baseParams == [] && paramStr == ""
    {
      this.domain, this.name, this.kind := domain, name, kind;
      this.time, this.timeZone, this.pid, this.tid := time, timeZone, pid, tid;
      baseParams, paramStr := [], "";
    }

    method AddParam(key: string, value: Value)
      modifies this`baseParams
      ensures baseParams == old(baseParams) + [Param(key, value)]
    {
      baseParams := baseParams + [Param(key, value)];
    }
  }
}
