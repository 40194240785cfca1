/** Printing of events as JSON text: the value printers, a string stream whose write position can
    be moved back over a trailing comma, and the splicing of members into printed text. */
module EventJson {
  import opened EventTypes
  import opened Decimal
  import opened Sequences

  /** `{}` and the line break. */
  const MIN_PARAM_STR_LEN := 3

  function Quoted(s: string): string {
    "\"" + s + "\""
  }

  function BoolText(b: bool): string {
    if b then "true" else "false"
  }

  function CharText(c: int): string {
    Quoted(IntText(c))
  }

  function RealText(f: Float): string {
    TrimRightZero(FloatText(f))
  }

  function Join(items: seq<string>): string {
    if |items| == 0 then ""
    else if |items| == 1 then items[0]
    else Join(items[..|items| - 1]) + "," + items[|items| - 1]
  }

  function Texts<T>(values: seq<T>, print_: T -> string): (texts: seq<string>)
    ensures |texts| == |values|
    ensures forall i :: 0 <= i < |values| ==> texts[i] == print_(values[i])
  {
    seq(|values|, i requires 0 <= i < |values| => print_(values[i]))
  }

  function ListText(items: seq<string>): string {
    "[" + Join(items) + "]"
  }

  /** The printed elements of a list value. */
  function Elements(v: Value): seq<string>
    requires IsList(v)
  {
    match v
    case Bools(bs) => Texts(bs, BoolText)
    case Chars(cs) => Texts(cs, CharText)
    case Numbers(ns, _) => Texts(ns, IntText)
    case Reals(fs, _) => Texts(fs, RealText)
    case Strs(ss) => Texts(ss, Quoted)
  }

  predicate IsList(v: Value) {
    v.Bools? || v.Chars? || v.Numbers? || v.Reals? || v.Strs?
  }

  function ScalarText(v: Value): string
    requires !IsList(v)
  {
    match v
    case Empty => "\"\""
    case Bool(b) => BoolText(b)
    case Char(c) => CharText(c)
    case Number(n, _) => IntText(n)
    case Real(f, _) => RealText(f)
    case Str(s) => Quoted(s)
  }

  function ValueText(v: Value): string {
    if IsList(v) then ListText(Elements(v)) else ScalarText(v)
  }

  function MemberText(p: Param): string {
    Quoted(p.name) + ":" + ValueText(p.value)
  }

  function MemberTexts(params: seq<Param>): seq<string> {
    Texts(params, MemberText)
  }

  /** A printed object: its members between braces, and a line break. */
  function ObjectText(members: seq<string>): string {
    "{" + Join(members) + "}\n"
  }

  function ParamText(params: seq<Param>, paramStr: string): string {
    if paramStr != "" then paramStr else ObjectText(MemberTexts(params))
  }

  datatype CustomParam = CustomParam(key: string, value: string)

  // ----- The stream -------------------------------------------------------------------------------

  class StringStream {
    var text: string
    var put: nat

    constructor ()
      ensures text == "" && put == 0
    {
      text, put := "", 0;
    }

    /** Output at the write position. Behind text shown so far - at the end, or on a final comma -
        it simply continues that text. */
    method Write(s: string, ghost shown: string)
      requires s != "" && Shows(this, shown)
      modifies this
      ensures text == shown + s && put == |text|
    {
      text := text[..put] + s + if put + |s| <= |text| then text[put + |s|..] else "";
      put := put + |s|;
    }

    /** `seekp(-1, end)` */
    method SeekLast()
      requires text != ""
      modifies this`put
      ensures put == |text| - 1
    {
      put := |text| - 1;
    }
  }

  /** The stream shows `s`, and whatever is written next goes behind it: a write position at the end,
      or on a final comma that the next write will cover. */
  ghost predicate Shows(stream: StringStream, s: string)
    reads stream
  {
    stream.put == |s| && (stream.text == s || stream.text == s + ",")
  }

  lemma JoinOneMore(items: seq<string>, i: nat)
    requires i < |items|
    ensures Join(items[..i + 1]) == Join(items[..i]) + (if i == 0 then "" else ",") + items[i]
  {
    assert items[..i + 1][..i] == items[..i];
  }

  /** Items with a comma after each. */
  function Listed(items: seq<string>): string {
    Join(items) + if items == [] then "" else ","
  }

  lemma ListedOneMore(before: string, items: seq<string>, i: nat)
    requires i < |items|
    ensures before + Listed(items[..i + 1]) == before + Listed(items[..i]) + items[i] + ","
  {
    JoinOneMore(items, i);
  }

  // ----- Value printers ---------------------------------------------------------------------------

  method GetValuesStr<T>(values: seq<T>, print_: T -> string) returns (valuesStr: string)
    ensures valuesStr == ListText(Texts(values, print_))
  {
    ghost var texts := Texts(values, print_);
    valuesStr := "[";
    var i := 0;
    while i < |values|
      invariant 0 <= i <= |values|
      invariant valuesStr == "[" + Join(texts[..i]) + if 0 < i < |values| then "," else ""
    {
      JoinOneMore(texts, i);
      valuesStr := valuesStr + print_(values[i]);
      if i != |values| - 1 {
        valuesStr := valuesStr + ",";
      }
      i := i + 1;
    }
    assert texts[..i] == texts;
    valuesStr := valuesStr + "]";
  }

  method GetParamValueStr(value: Value) returns (s: string)
    ensures s == ValueText(value)
  {
    match value {
      case Empty => s := "\"\"";
      case Bool(b) => s := BoolText(b);
      case Char(c) => s := CharText(c);
      case Number(n, _) => s := IntText(n);
      case Real(f, _) => s := RealText(f);
      case Str(str) => s := Quoted(str);
      case Bools(bs) => s := GetValuesStr(bs, BoolText);
      case Chars(cs) => s := GetValuesStr(cs, CharText);
      case Numbers(ns, _) => s := GetValuesStr(ns, IntText);
      case Reals(fs, _) => s := GetValuesStr(fs, RealText);
      case Strs(ss) => s := GetValuesStr(ss, Quoted);
    }
  }

  // ----- Event printers ---------------------------------------------------------------------------

  method AddMember(param: Param, stream: StringStream)
    requires stream.put == |stream.text|
    modifies stream
    ensures stream.text == old(stream.text) + MemberText(param) + "," && stream.put == |stream.text|
  {
    hide ValueText;
    var value := GetParamValueStr(param.value);
    stream.Write("\"" + param.name + "\":" + value + ",", stream.text);
    assert MemberText(param) + "," == "\"" + param.name + "\":" + value + ",";
  }

  /** Write the members with a comma after each, then move back onto the last comma. */
  method AddParamsToJsonString(pack: AppEventPack, stream: StringStream)
    requires stream.put == |stream.text|
    modifies stream
    ensures Shows(stream, old(stream.text) + Join(MemberTexts(pack.baseParams)))
  {
    var params := pack.baseParams;
    if params == [] {
      return;
    }
    ghost var before, texts := stream.text, MemberTexts(params);
    var i := 0;
    while i < |params|
      invariant 0 <= i <= |params|
      invariant stream.text == before + Listed(texts[..i])
      invariant stream.put == |stream.text|
    {
      ListedOneMore(before, texts, i);
      AddMember(params[i], stream);
      i := i + 1;
    }
    assert texts[..i] == texts;
    stream.SeekLast();
  }

  method GetParamStr(pack: AppEventPack) returns (s: string)
    ensures s == ParamText(pack.baseParams, pack.paramStr)
  {
    hide Join, MemberTexts;
    if pack.paramStr != "" {
      return pack.paramStr;
    }
    var stream := new StringStream();
    stream.Write("{", "");
    AddParamsToJsonString(pack, stream);
    ghost var shown := "{" + Join(MemberTexts(pack.baseParams));
    stream.Write("}\n", shown);
    s := stream.text;
    assert s == shown + "}\n";
  }

  /** The fixed members of an event. */
  datatype Base = Base(domain: string, name: string, kind: int, time: nat, timeZone: string, pid: int, tid: nat)
  {
    function Text(): string {
      "\"domain_\":" + Quoted(domain) + "," + "\"name_\":" + Quoted(name) + ","
        + "\"type_\":" + IntText(kind) + "," + "\"time_\":" + IntText(time) + ","
        + "\"tz_\":" + Quoted(timeZone) + "," + "\"pid_\":" + IntText(pid) + ","
        + "\"tid_\":" + IntText(tid)
    }
  }

  ghost function BaseOf(pack: AppEventPack): Base
    reads pack
  {
    Base(pack.domain, pack.name, pack.kind, pack.time, pack.timeZone, pack.pid, pack.tid)
  }

  /** The members of an event behind its fixed ones: its own parameters, or else the inside of the
      parameter text it was given. */
  function ParamsInfo(params: seq<Param>, paramStr: string): string {
    if params != [] then "," + Join(MemberTexts(params))
    else if |paramStr| > MIN_PARAM_STR_LEN then "," + paramStr[1..|paramStr| - 2]
    else ""
  }

  function EventText(base: Base, params: seq<Param>, paramStr: string): string {
    "{" + base.Text() + ParamsInfo(params, paramStr) + "}\n"
  }

  method AddBaseInfoToJsonString(pack: AppEventPack, stream: StringStream)
    requires stream.put == |stream.text|
    modifies stream
    ensures stream.text == old(stream.text) + BaseOf(pack).Text() && stream.put == |stream.text|
  {
    stream.Write("\"domain_\":" + Quoted(pack.domain) + "," + "\"name_\":" + Quoted(pack.name) + ","
      + "\"type_\":" + IntText(pack.kind) + "," + "\"time_\":" + IntText(pack.time) + ","
      + "\"tz_\":" + Quoted(pack.timeZone) + "," + "\"pid_\":" + IntText(pack.pid) + ","
      + "\"tid_\":" + IntText(pack.tid), stream.text);
  }

  method AddParamsInfoToJsonString(pack: AppEventPack, stream: StringStream)
    requires stream.put == |stream.text|
    modifies stream
    ensures Shows(stream, old(stream.text) + ParamsInfo(pack.baseParams, pack.paramStr))
  {
    ghost var before, params := stream.text, pack.baseParams;
    if |pack.baseParams| != 0 {
      stream.Write(",", before);
      AddParamsToJsonString(pack, stream);
      Regroup(before, ",", Join(MemberTexts(params)));
      return;
    }
    var paramStrLen := |pack.paramStr|;
    if paramStrLen > MIN_PARAM_STR_LEN {
      stream.Write("," + pack.paramStr[1..1 + (paramStrLen - MIN_PARAM_STR_LEN)], before);
    } else {
      assert before + ParamsInfo(params, pack.paramStr) == before;
    }
  }

  method GetEventStr(pack: AppEventPack) returns (s: string)
    ensures s == EventText(BaseOf(pack), pack.baseParams, pack.paramStr)
  {
    hide ParamsInfo, Join, Base.Text, Quoted, IntText;
    var stream := new StringStream();
    stream.Write("{", "");
    AddBaseInfoToJsonString(pack, stream);
    ghost var base, info := stream.text, ParamsInfo(pack.baseParams, pack.paramStr);
    AddParamsInfoToJsonString(pack, stream);
    stream.Write("}\n", base + info);
    s := stream.text;
    assert s == base + info + "}\n";
  }

  /** A parameter as it is handed to the observers: name, printed value, and type. */
  datatype CustomEventParam = CustomEventParam(key: string, value: string, kind: int)

  method GetCustomParams(pack: AppEventPack, customParams: seq<CustomEventParam>)
    returns (all: seq<CustomEventParam>)
    ensures all == customParams + CustomEventParams(pack.baseParams)
    ensures |all| == |customParams| + |pack.baseParams|
    ensures forall i :: 0 <= i < |pack.baseParams| ==>
              var c, p := all[|customParams| + i], pack.baseParams[i];
              c.key == p.name && c.value == ValueText(p.value) && c.kind == TypeOf(p.value)
  {
    hide ValueText, TypeOf;
    all := customParams;
    var i := 0;
    while i < |pack.baseParams|
      invariant 0 <= i <= |pack.baseParams|
      invariant all == customParams + CustomEventParams(pack.baseParams)[..i]
    {
      var param := pack.baseParams[i];
      var value := GetParamValueStr(param.value);
      PrefixNext(customParams, CustomEventParams(pack.baseParams), i);
      all := all + [CustomEventParam(param.name, value, TypeOf(param.value))];
      i := i + 1;
    }
  }

  function CustomEventParams(params: seq<Param>): (r: seq<CustomEventParam>)
    ensures |r| == |params|
  {
    seq(|params|, i requires 0 <= i < |params| =>
      CustomEventParam(params[i].name, ValueText(params[i].value), TypeOf(params[i].value)))
  }

  /** Names and printed values, in order. */
  function CustomParams(params: seq<Param>): (r: seq<CustomParam>)
    ensures |r| == |params|
    ensures forall i :: 0 <= i < |params| ==>
              r[i] == CustomParam(CustomEventParams(params)[i].key, CustomEventParams(params)[i].value)
  {
    seq(|params|, i requires 0 <= i < |params| => CustomParam(params[i].name, ValueText(params[i].value)))
  }

  // ----- Splicing ---------------------------------------------------------------------------------

  function PairText(pair: CustomParam): string {
    Quoted(pair.key) + ":" + pair.value
  }

  /** Parameter text with pairs put in front of its last two characters. */
  function Spliced(paramStr: string, pairs: seq<CustomParam>): string
    requires |paramStr| >= MIN_PARAM_STR_LEN
  {
    paramStr[..|paramStr| - 2]
      + ((if |paramStr| > MIN_PARAM_STR_LEN then "," else "") + Join(Texts(pairs, PairText)))
      + paramStr[|paramStr| - 2..]
  }

  /** The stored parameter text after pairs were added to an event. */
  function StoredAfter(params: seq<Param>, stored: string, pairs: seq<CustomParam>): string {
    var paramStr := ParamText(params, stored);
    if pairs == [] || |paramStr| < MIN_PARAM_STR_LEN then stored else Spliced(paramStr, pairs)
  }

  /** `customParams` lists the pairs in the order in which the unordered map yields them. */
  method AddCustomParams(pack: AppEventPack, customParams: seq<CustomParam>)
    modifies pack`paramStr
    ensures pack.paramStr == StoredAfter(pack.baseParams, old(pack.paramStr), customParams)
  {
    if customParams == [] {
      return;
    }
    var paramStr := GetParamStr(pack);
    if |paramStr| >= MIN_PARAM_STR_LEN {
      var customParamStr := CustomParamStr(if |paramStr| > MIN_PARAM_STR_LEN then "," else "", customParams);
      pack.paramStr := paramStr[..|paramStr| - 2] + customParamStr + paramStr[|paramStr| - 2..];
    }
  }

  /** The pairs with a comma after each, the last comma erased again. */
  method CustomParamStr(lead: string, pairs: seq<CustomParam>) returns (s: string)
    requires pairs != []
    ensures s == lead + Join(Texts(pairs, PairText))
  {
    hide Join;
    var jsonStr := lead;
    ghost var texts := Texts(pairs, PairText);
    NothingListed(lead);
    assert texts[..0] == [];
    var i := 0;
    while i < |pairs|
      invariant 0 <= i <= |pairs|
      invariant jsonStr == lead + Listed(texts[..i])
    {
      ListedOneMore(lead, texts, i);
      jsonStr := AddPair(jsonStr, pairs[i]);
      i := i + 1;
    }
    assert texts[..i] == texts;
    CommaDropped(lead, texts);
    s := jsonStr[..|jsonStr| - 1];
  }

  lemma NothingListed(lead: string)
    ensures lead + Listed([]) == lead
  {
  }

  method AddPair(jsonStr: string, pair: CustomParam) returns (s: string)
    ensures s == jsonStr + PairText(pair) + ","
  {
    s := jsonStr + ("\"" + pair.key + "\":" + pair.value) + ",";
    assert PairText(pair) == "\"" + pair.key + "\":" + pair.value;
  }

  lemma CommaDropped(lead: string, items: seq<string>)
    requires items != []
    ensures var listed := lead + Listed(items);
            |listed| > 0 && listed[..|listed| - 1] == lead + Join(items)
  {
    hide Join;
  }

  // ----- Properties -------------------------------------------------------------------------------

  ghost predicate NoneEmpty(items: seq<string>) {
    forall i :: 0 <= i < |items| ==> items[i] != ""
  }

  lemma JoinEmptyIff(items: seq<string>)
    requires NoneEmpty(items)
    ensures Join(items) == "" <==> items == []
  {
  }

  lemma {:induction false} JoinConcat(xs: seq<string>, ys: seq<string>)
    ensures Join(xs + ys) == Join(xs) + (if xs != [] && ys != [] then "," else "") + Join(ys)
  {
    if ys == [] {
      assert xs + ys == xs;
    } else {
      hide Join;
      var front, last := ys[..|ys| - 1], ys[|ys| - 1];
      JoinConcat(xs, front);
      JoinSnoc(xs + front, last);
      JoinSnoc(front, last);
      assert front + [last] == ys && xs + front + [last] == xs + ys;
      if front == [] {
        assert xs + front == xs;
      } else {
        JoinRegroup(Join(xs), if xs == [] then "" else ",", Join(front), "," + last);
      }
    }
  }

  lemma JoinRegroup(a: string, b: string, c: string, d: string)
    ensures a + b + c + d == a + b + (c + d)
  {
  }

  lemma JoinSnoc(items: seq<string>, item: string)
    ensures Join(items + [item]) == Join(items) + ((if items == [] then "" else ",") + item)
  {
    assert (items + [item])[..|items|] == items;
  }

  /** The parts of a printed object around its inside. */
  lemma Inside(s: string)
    ensures var text := "{" + s + "}\n";
            && |text| == |s| + MIN_PARAM_STR_LEN && text[1..|text| - 2] == s
            && text[..|text| - 2] == "{" + s && text[|text| - 2..] == "}\n"
  {
  }

  lemma Associate(a: string, b: string, c: string, d: string, e: string)
    ensures a + b + (c + d) + e == a + (b + c + d) + e
  {
  }

  lemma TextsConcat<T>(xs: seq<T>, ys: seq<T>, print_: T -> string)
    ensures Texts(xs + ys, print_) == Texts(xs, print_) + Texts(ys, print_)
  {
  }

  /** Splicing into a printed object, the empty one included, appends members. */
  lemma SpliceAppends(members: seq<string>, pairs: seq<CustomParam>)
    requires NoneEmpty(members) && pairs != []
    ensures |ObjectText(members)| >= MIN_PARAM_STR_LEN
    ensures Spliced(ObjectText(members), pairs) == ObjectText(members + Texts(pairs, PairText))
  {
    JoinEmptyIff(members);
    JoinConcat(members, Texts(pairs, PairText));
    Inside(Join(members));
    Associate("{", Join(members), if members == [] then "" else ",", Join(Texts(pairs, PairText)), "}\n");
  }

  /** The parameter text after one more `AddCustomParams` call. */
  function AfterCall(paramStr: string, pairs: seq<CustomParam>): string {
    if pairs == [] || |paramStr| < MIN_PARAM_STR_LEN then paramStr else Spliced(paramStr, pairs)
  }

  function AfterCalls(paramStr: string, calls: seq<seq<CustomParam>>): string {
    if calls == [] then paramStr
    else AfterCall(AfterCalls(paramStr, calls[..|calls| - 1]), calls[|calls| - 1])
  }

  function Flatten<T>(xss: seq<seq<T>>): seq<T> {
    if xss == [] then [] else Flatten(xss[..|xss| - 1]) + xss[|xss| - 1]
  }

  lemma PairsNotEmpty(pairs: seq<CustomParam>)
    ensures NoneEmpty(Texts(pairs, PairText))
  {
  }

  lemma CallAppends(members: seq<string>, earlier: seq<CustomParam>, pairs: seq<CustomParam>)
    requires NoneEmpty(members)
    ensures AfterCall(ObjectText(members + Texts(earlier, PairText)), pairs)
         == ObjectText(members + Texts(earlier + pairs, PairText))
  {
    var sofar, more := members + Texts(earlier, PairText), Texts(pairs, PairText);
    PairsNotEmpty(earlier);
    TextsConcat(earlier, pairs, PairText);
    assert members + Texts(earlier + pairs, PairText) == sofar + more;
    if pairs == [] {
      assert sofar + more == sofar;
    } else {
      SpliceAppends(sofar, pairs);
    }
  }

  /** Any series of calls keeps the text a printed object, and its members become the old ones
      followed by all added pairs in order. */
  lemma {:induction false} CallsAccumulate(members: seq<string>, calls: seq<seq<CustomParam>>)
    requires NoneEmpty(members)
    ensures AfterCalls(ObjectText(members), calls) == ObjectText(members + Texts(Flatten(calls), PairText))
  {
    if calls == [] {
      assert members + Texts([], PairText) == members;
    } else {
      var front, pairs := calls[..|calls| - 1], calls[|calls| - 1];
      CallsAccumulate(members, front);
      CallAppends(members, Flatten(front), pairs);
    }
  }

  lemma MembersNotEmpty(params: seq<Param>)
    ensures NoneEmpty(MemberTexts(params))
  {
  }

  /** An event read back from its stored parameter text prints as the event it was stored from. */
  lemma StoredPrintsSame(base: Base, params: seq<Param>)
    ensures EventText(base, [], ParamText(params, "")) == EventText(base, params, "")
  {
    var members := MemberTexts(params);
    MembersNotEmpty(params);
    JoinEmptyIff(members);
    Inside(Join(members));
  }

  /** Adding custom parameters shows in the printed event if and only if the event has no parameters of
      its own and no stored text too short to hold any: whatever the stored text is. */
  lemma CustomParamsShownIff(base: Base, params: seq<Param>, stored: string, pairs: seq<CustomParam>)
    requires pairs != []
    ensures EventText(base, params, StoredAfter(params, stored, pairs)) != EventText(base, params, stored)
       <==> params == [] && (stored == "" || |stored| >= MIN_PARAM_STR_LEN)
  {
    if params == [] && (stored == "" || |stored| >= MIN_PARAM_STR_LEN) {
      var after := StoredAfter(params, stored, pairs);
      SplicedLonger(ParamText(params, stored), pairs);
      hide Base.Text, Spliced, Join;
      assert |ParamsInfo([], after)| > |ParamsInfo([], stored)|;
      assert |EventText(base, params, after)| > |EventText(base, params, stored)|;
    }
  }

  lemma SplicedLonger(paramStr: string, pairs: seq<CustomParam>)
    requires |paramStr| >= MIN_PARAM_STR_LEN && pairs != []
    ensures |Spliced(paramStr, pairs)| > |paramStr|
  {
    PairsNotEmpty(pairs);
    JoinEmptyIff(Texts(pairs, PairText));
  }

  /** What then shows is the stored members followed by the added ones. */
  lemma ShownMembers(base: Base, members: seq<string>, pairs: seq<CustomParam>)
    requires NoneEmpty(members) && pairs != []
    ensures EventText(base, [], StoredAfter([], ObjectText(members), pairs))
         == EventText(base, [], ObjectText(members + Texts(pairs, PairText)))
  {
    SpliceAppends(members, pairs);
  }

  /** With nothing stored yet, the event then prints all members, its own and the added ones, if and
      only if it has none of its own: one that has prints those alone. */
  lemma FirstCustomParamsShownIff(base: Base, params: seq<Param>, pairs: seq<CustomParam>)
    requires pairs != []
    ensures var all := MemberTexts(params) + Texts(pairs, PairText);
            (EventText(base, params, Spliced(ParamText(params, ""), pairs))
              == EventText(base, [], ObjectText(all))) <==> params == []
  {
    var members, added := MemberTexts(params), Texts(pairs, PairText);
    MembersNotEmpty(params);
    PairsNotEmpty(pairs);
    SpliceAppends(members, pairs);
    JoinConcat(members, added);
    JoinEmptyIff(added);
    Inside(Join(members + added));
    var text := ObjectText(members + added);
    var shown := EventText(base, params, Spliced(ParamText(params, ""), pairs));
    var wanted := EventText(base, [], text);
    if params != [] {
      assert |shown| < |wanted|;
    }
  }
}
