/** Reading printed values back. The reader goes by the number of the type that is handed out with a
    value, and by the text alone; it knows nothing of the printers. */
module EventRead {
  import opened Wrappers
  import opened Sequences
  import opened EventTypes
  import opened Escaping
  import opened Decimal
  import opened EventJson
  import opened JsonScan
  import opened EventScan
  import EventVerify

  // ----- The reader -----------------------------------------------------------------------------------

  function ReadBool(s: string): Option<bool> {
    if s == "true" then Some(true) else if s == "false" then Some(false) else None
  }

  function ReadInt(s: string): Option<int> {
    if s != "" && s[0] == '-' then
      if s[1..] != "" && AllDigits(s[1..]) then Some(0 - ReadNat(s[1..])) else None
    else if s != "" && AllDigits(s) then Some(ReadNat(s))
    else None
  }

  /** The digits after the point, in millionths. */
  function ReadMicros(s: string): Option<nat> {
    if s == "" then Some(0)
    else if s[0] == '.' && 1 < |s| <= 7 && AllDigits(s[1..]) then Some(ReadFraction(s[1..], 100_000))
    else None
  }

  function ReadUnsigned(negative: bool, s: string): Option<Float> {
    var n := DigitCount(s);
    var micros := ReadMicros(s[n..]);
    if n == 0 || micros.None? || micros.value >= 1_000_000 then None
    else Some(Finite(negative, ReadNat(s[..n]), micros.value))
  }

  function ReadFloat(s: string): Option<Float> {
    if s != "" && s[0] == '-' then ReadUnsigned(true, s[1..]) else ReadUnsigned(false, s)
  }

  /** The text that a string literal denotes. */
  function ReadText(s: string): Option<string> {
    if |s| >= 2 && s[0] == '\"' && s[|s| - 1] == '\"' then Unescape(s[1..|s| - 1]) else None
  }

  /** A scalar of type 0 to 8. */
  function ReadScalar(kind: nat, s: string): (r: Option<Value>)
    ensures r.Some? ==> TypeOf(r.value) == kind <= 8
  {
    match kind
    case 0 => if ReadText(s) == Some("") then Some(Empty) else None
    case 1 => (match ReadBool(s) case None => None case Some(b) => Some(Bool(b)))
    case 2 =>
      (match ReadText(s)
       case None => None
       case Some(t) => match ReadInt(t) case None => None case Some(c) => Some(Char(c)))
    case 3 => (match ReadInt(s) case None => None case Some(n) => Some(Number(n, Short)))
    case 4 => (match ReadInt(s) case None => None case Some(n) => Some(Number(n, Integer)))
    case 5 => (match ReadInt(s) case None => None case Some(n) => Some(Number(n, LongLong)))
    case 6 => (match ReadFloat(s) case None => None case Some(f) => Some(Real(f, Single)))
    case 7 => (match ReadFloat(s) case None => None case Some(f) => Some(Real(f, Double)))
    case 8 => (match ReadText(s) case None => None case Some(t) => Some(Str(t)))
    case _ => None
  }

  /** The elements of a list, up to its closing bracket, which must be the end of the text. */
  function ReadElements(kind: nat, s: string): Option<seq<Value>>
    decreases |s|, 0
  {
    match ScanScalar(s)
    case None => None
    case Some(n) => if n == |s| then None else ReadMore(kind, ReadScalar(kind, s[..n]), s[n], s[n + 1..])
  }

  function ReadMore(kind: nat, first: Option<Value>, behind: char, rest: string): Option<seq<Value>>
    decreases |rest|, 1
  {
    if first.None? then None
    else if behind == ']' && rest == "" then Some([first.value])
    else if behind != ',' then None
    else match ReadElements(kind, rest)
         case None => None
         case Some(more) => Some([first.value] + more)
  }

  function Flag(v: Value): bool { v.Bool? && v.b }

  function Whole(v: Value): int { match v case Char(c) => c case Number(n, _) => n case _ => 0 }

  function Fractional(v: Value): Float { match v case Real(f, _) => f case _ => NotANumber(false) }

  function Words(v: Value): string { match v case Str(s) => s case _ => "" }

  function All<T>(items: seq<Value>, part: Value -> T): (r: seq<T>)
    ensures |r| == |items| && forall i :: 0 <= i < |items| ==> r[i] == part(items[i])
  {
    seq(|items|, i requires 0 <= i < |items| => part(items[i]))
  }

  /** The list with these elements, of the type numbered `kind`. */
  function Collect(kind: nat, items: seq<Value>): Value {
    match kind
    case 9 => Bools(All(items, Flag))
    case 10 => Chars(All(items, Whole))
    case 11 => Numbers(All(items, Whole), Short)
    case 12 => Numbers(All(items, Whole), Integer)
    case 13 => Numbers(All(items, Whole), LongLong)
    case 14 => Reals(All(items, Fractional), Single)
    case 15 => Reals(All(items, Fractional), Double)
    case _ => Strs(All(items, Words))
  }

  function ReadValue(kind: nat, s: string): Option<Value> {
    if kind <= 8 then ReadScalar(kind, s)
    else if kind > 16 || s == "" || s[0] != '[' then None
    else if s[1..] == "]" then Some(Collect(kind, []))
    else match ReadElements(kind - 8, s[1..])
         case None => None
         case Some(items) => Some(Collect(kind, items))
  }

  // ----- Scalars read back --------------------------------------------------------------------------

  lemma IntReads(n: int)
    ensures ReadInt(IntText(n)) == Some(n)
  {
    NatRoundTrip(if n < 0 then -n else n);
    var s := IntText(n);
    if n < 0 {
      assert s[1..] == NatText(-n);
    } else {
      assert s[0] == NatText(n)[0];
    }
  }

  lemma UnsignedReads(negative: bool, whole: nat, fraction: string)
    requires AllDigits(fraction) && |fraction| <= 6 && ReadFraction(fraction, 100_000) < 1_000_000
    ensures ReadUnsigned(negative, NatText(whole) + if fraction == "" then "" else "." + fraction)
         == Some(Finite(negative, whole, ReadFraction(fraction, 100_000)))
  {
    var tail := if fraction == "" then "" else "." + fraction;
    var s := NatText(whole) + tail;
    DigitRun(NatText(whole), tail);
    NatRoundTrip(whole);
    assert s[..|NatText(whole)|] == NatText(whole) && s[|NatText(whole)|..] == tail;
    assert fraction != "" ==> tail[1..] == fraction;
  }

  lemma FloatReads(f: Float)
    requires f.Finite?
    ensures ReadFloat(RealText(f)) == Some(f)
  {
    var fraction := TrimKeepsValue(f.negative, f.whole, f.micros);
    var tail := if fraction == "" then "" else "." + fraction;
    var digits := NatText(f.whole) + tail;
    UnsignedReads(f.negative, f.whole, fraction);
    Regroup(Sign(f.negative), NatText(f.whole), tail);
    assert RealText(f) == Sign(f.negative) + digits;
    assert digits[0] == NatText(f.whole)[0] && IsDigit(digits[0]);
    SignReads(f.negative, digits);
  }

  lemma SignReads(negative: bool, digits: string)
    requires digits != "" && digits[0] != '-'
    ensures ReadFloat(Sign(negative) + digits) == ReadUnsigned(negative, digits)
  {
    var s := Sign(negative) + digits;
    if negative {
      assert s[1..] == digits;
    } else {
      assert s == digits;
    }
  }

  lemma TextReads(s: string)
    ensures ReadText(Quoted(Escape(s))) == Some(s)
  {
    EscapeRoundTrip(s);
    var t := Quoted(Escape(s));
    assert t[1..|t| - 1] == Escape(s);
  }

  lemma CharReads(c: int)
    ensures ReadText(CharText(c)) == Some(IntText(c))
  {
    IntIsNumber(c);
    PlainEscape(IntText(c));
    TextReads(IntText(c));
  }

  lemma ScalarReads(v: Value)
    requires !IsList(v) && (v.Str? || Safe(v))
    ensures ReadScalar(TypeOf(v), ScalarText(EventVerify.Stored(v))) == Some(v)
  {
    hide ReadInt, ReadFloat, ReadText, RealText, Escape, CharText;
    match v
    case Empty =>
      EscapeNothing();
      TextReads("");
    case Bool(_) =>
    case Char(c) =>
      CharReads(c);
      IntReads(c);
    case Number(n, _) => IntReads(n);
    case Real(f, _) => FloatReads(f);
    case Str(s) => TextReads(s);
  }

  // ----- Lists read back ------------------------------------------------------------------------------

  ghost predicate ReadableScalars(vs: seq<Value>, kind: nat) {
    forall i :: 0 <= i < |vs| ==> !IsList(vs[i]) && Safe(EventVerify.Stored(vs[i])) && TypeOf(vs[i]) == kind
  }

  function AllStored(vs: seq<Value>): (r: seq<Value>)
    ensures |r| == |vs| && forall i :: 0 <= i < |vs| ==> r[i] == EventVerify.Stored(vs[i])
  {
    seq(|vs|, i requires 0 <= i < |vs| => EventVerify.Stored(vs[i]))
  }

  lemma StoredScalar(v: Value)
    requires !IsList(v)
    ensures !IsList(EventVerify.Stored(v)) && StringsEscaped(EventVerify.Stored(v))
  {
    StoredIsEscaped(v);
  }

  /** The first element, and what is behind it. */
  lemma ElementReads(v: Value, kind: nat, after: string)
    requires !IsList(v) && Safe(EventVerify.Stored(v)) && TypeOf(v) == kind && Ends(after)
    ensures ReadElements(kind, ScalarText(EventVerify.Stored(v)) + after)
         == ReadMore(kind, Some(v), after[0], after[1..])
  {
    hide ScanValue, ScanScalar, ReadScalar, ReadMore, ScalarText, EventVerify.Stored, Safe;
    StoredScalar(v);
    var head := ScalarText(EventVerify.Stored(v));
    ScalarScans(EventVerify.Stored(v), after);
    ScalarStart(EventVerify.Stored(v));
    ScalarAlone(head, after);
    SafeUnstored(v);
    ScalarReads(v);
    var s := head + after;
    assert s[..|head|] == head && s[|head|] == after[0] && s[|head| + 1..] == after[1..];
  }

  lemma SafeUnstored(v: Value)
    requires !IsList(v) && Safe(EventVerify.Stored(v))
    ensures v.Str? || Safe(v)
  {
  }

  lemma {:induction false} ElementsRead(vs: seq<Value>, kind: nat)
    requires vs != [] && ReadableScalars(vs, kind)
    ensures ReadElements(kind, ElementsText(AllStored(vs))) == Some(vs)
    decreases |vs|
  {
    hide ReadElements, ElementsText, ScalarText, Safe, EventVerify.Stored;
    var stored := AllStored(vs);
    StoredScalar(vs[0]);
    ElementsFront(stored, "");
    assert ElementsText(stored) + "" == ElementsText(stored);
    if |vs| == 1 {
      ElementReads(vs[0], kind, "]");
      assert "]" + "" == "]" && "]"[1..] == "" && vs == [vs[0]];
    } else {
      var rest := ElementsText(stored[1..]);
      assert stored[1..] == AllStored(vs[1..]) && rest + "" == rest;
      ElementsRead(vs[1..], kind);
      ElementReads(vs[0], kind, "," + rest);
      assert ("," + rest)[1..] == rest && [vs[0]] + vs[1..] == vs;
    }
  }

  lemma CollectedBack(v: Value)
    requires IsList(v)
    ensures TypeOf(v) >= 9 && Collect(TypeOf(v), Scalars(v)) == v
    ensures forall i :: 0 <= i < |Scalars(v)| ==> TypeOf(Scalars(v)[i]) == TypeOf(v) - 8
  {
    var vs := Scalars(v);
    match v
    case Bools(bs) => assert All(vs, Flag) == bs;
    case Chars(cs) => assert All(vs, Whole) == cs;
    case Numbers(ns, _) => assert All(vs, Whole) == ns;
    case Reals(fs, _) => assert All(vs, Fractional) == fs;
    case Strs(ss) => assert All(vs, Words) == ss;
  }

  /** Storing a list stores its first hundred elements. */
  lemma StoredElements(v: Value)
    requires IsList(v)
    ensures IsList(EventVerify.Stored(v)) && IsList(EventVerify.Cut(v))
    ensures Scalars(EventVerify.Stored(v)) == AllStored(Scalars(EventVerify.Cut(v)))
    ensures TypeOf(EventVerify.Stored(v)) == TypeOf(EventVerify.Cut(v)) == TypeOf(v)
  {
    hide Escape;
    var stored, cut := Scalars(EventVerify.Stored(v)), Scalars(EventVerify.Cut(v));
    assert |stored| == |cut|;
    assert forall i :: 0 <= i < |stored| ==> stored[i] == AllStored(cut)[i];
  }

  lemma ListReads(v: Value)
    requires IsList(v) && Safe(EventVerify.Stored(v))
    ensures ReadValue(TypeOf(v), ValueText(EventVerify.Stored(v))) == Some(EventVerify.Cut(v))
  {
    hide Safe, ValueText, ElementsText, ReadElements, EventVerify.Stored, EventVerify.Cut, Collect, Scalars, TypeOf;
    var stored, cut := EventVerify.Stored(v), EventVerify.Cut(v);
    StoredElements(v);
    CollectedBack(cut);
    var vs := Scalars(cut);
    ElementsAreScalars(stored);
    ListTextOf(stored, AllStored(vs));
    TypeBelow(v);
    if vs == [] {
      assert "[]"[1..] == "]";
    } else {
      ScalarsKeepSafety(stored);
      forall i | 0 <= i < |vs|
        ensures Safe(EventVerify.Stored(vs[i]))
      {
        assert Safe(Scalars(stored)[i]);
      }
      ElementsRead(vs, TypeOf(v) - 8);
      StoredScalar(vs[0]);
      ElementsStart(AllStored(vs));
      var s := ValueText(stored);
      assert s[1..] == ElementsText(AllStored(vs));
      ElementsLonger(AllStored(vs));
    }
  }

  lemma TypeBelow(v: Value)
    ensures TypeOf(v) <= 16
  {
  }

  lemma ElementsLonger(vs: seq<Value>)
    requires vs != [] && !IsList(vs[0])
    ensures ElementsText(vs) != "]"
  {
    ElementsStart(vs);
  }

  /** Every value reads back from its stored and printed text, by the number of its type, as itself - a
      list as its first hundred elements - provided it is safe to print. */
  lemma ReadsBack(v: Value)
    requires Safe(EventVerify.Stored(v))
    ensures ReadValue(TypeOf(v), ValueText(EventVerify.Stored(v))) == Some(EventVerify.Cut(v))
    ensures !IsList(v) ==> EventVerify.Cut(v) == v
  {
    if IsList(v) {
      ListReads(v);
    } else {
      SafeUnstored(v);
      StoredScalar(v);
      ScalarReads(v);
    }
  }

  // ----- Events read back -----------------------------------------------------------------------------

  /** After verification, the parameter text of an event is an object whose members are, in order, the
      kept parameters: each has the name of one, and a value text that reads back as its value. */
  lemma ParamTextReads(params: seq<Param>) returns (places: seq<nat>)
    requires AllValuesSafe(EventVerify.First32(EventVerify.Surviving(params, |params|)))
    ensures |places| == EventVerify.Least(|EventVerify.Surviving(params, |params|)|, 32)
    ensures forall k, l :: 0 <= k < l < |places| ==> places[k] < places[l]
    ensures forall k :: 0 <= k < |places| ==> places[k] < |params| && EventVerify.Kept(params, places[k])
    ensures var r := ScanObject(ParamText(EventVerify.First32(EventVerify.Surviving(params, |params|)), ""));
            && r.Scanned? && r.rest == "\n" && |r.members| == |places|
            && forall k :: 0 <= k < |places| ==>
                 r.members[k].key == params[places[k]].name &&
                 ReadValue(TypeOf(params[places[k]].value), r.members[k].value) ==
                   Some(EventVerify.Cut(params[places[k]].value))
  {
    hide ScanObject, ParamText, Safe, ReadValue, ValueText, TypeOf;
    hide EventVerify.Surviving, EventVerify.Stored, EventVerify.Cut, EventVerify.Kept;
    var all := EventVerify.Surviving(params, |params|);
    var kept := EventVerify.First32(all);
    var every := EventVerify.SurvivorsInOrder(params, |params|);
    places := every[..|kept|];
    VerificationVerifies(params);
    ParamTextScans(kept);
    forall k | 0 <= k < |places|
      ensures EventVerify.Kept(params, places[k])
      ensures CustomParams(kept)[k].key == params[places[k]].name
      ensures ReadValue(TypeOf(params[places[k]].value), CustomParams(kept)[k].value) ==
                Some(EventVerify.Cut(params[places[k]].value))
    {
      assert every[k] in every && kept[k] == all[k];
      assert Safe(kept[k].value);
      ReadsBack(params[places[k]].value);
    }
  }

  /** The fixed members of an event, by name; the numbers among them read back. */
  lemma BaseReads(base: Base)
    ensures var m := BaseMembers(base);
            && |m| == 7
            && m[0] == CustomParam("domain_", "\"" + base.domain + "\"")
            && m[1] == CustomParam("name_", "\"" + base.name + "\"")
            && m[2].key == "type_" && ReadInt(m[2].value) == Some(base.kind)
            && m[3].key == "time_" && ReadInt(m[3].value) == Some(base.time)
            && m[4] == CustomParam("tz_", "\"" + base.timeZone + "\"")
            && m[5].key == "pid_" && ReadInt(m[5].value) == Some(base.pid)
            && m[6].key == "tid_" && ReadInt(m[6].value) == Some(base.tid)
  {
    IntReads(base.kind);
    IntReads(base.time);
    IntReads(base.pid);
    IntReads(base.tid);
    hide ReadInt, IntText;
  }
}
