/** Verification of an event before it is written: parameters that break a rule are taken out of
    the list in place, over-long lists are cut, string values are escaped in place. */
module EventVerify {
  import opened Wrappers
  import opened EventTypes
  import opened Escaping

  const VERIFY_SUCCESSFUL := 0
  const ERROR_INVALID_EVENT_NAME := -1
  const ERROR_INVALID_EVENT_DOMAIN := -4
  const ERROR_INVALID_PARAM_NAME := 1
  const ERROR_INVALID_PARAM_VALUE_LENGTH := 4
  const ERROR_INVALID_PARAM_NUM := 5
  const ERROR_INVALID_LIST_PARAM_SIZE := 6
  const ERROR_DUPLICATE_PARAM := 8
  const ERROR_HIAPPEVENT_DISABLE := -99

  const MAX_LEN_OF_DOMAIN := 32
  const MAX_LENGTH_OF_EVENT_NAME := 48
  const MAX_LENGTH_OF_PARAM_NAME := 32
  const MAX_NUM_OF_PARAMS := 32
  const MAX_LENGTH_OF_STR_PARAM := 8 * 1024
  const MAX_LENGTH_OF_SPECIAL_STR_PARAM := 1024 * 1024
  const MAX_SIZE_OF_LIST_PARAM := 100
  const EVENT_PREFIX := "hiappevent."

  // ----- Names ------------------------------------------------------------------------------------

  predicate IsAlpha(c: char) { 'a' <= c <= 'z' || 'A' <= c <= 'Z' }

  predicate IsAlnum(c: char) { IsAlpha(c) || '0' <= c <= '9' }

  predicate IsWord(c: char) { IsAlnum(c) || c == '_' }

  /** Letters and digits are those of ASCII. */
  lemma AsciiCodes(c: char)
    ensures IsAlpha(c) <==> 65 <= c as int <= 90 || 97 <= c as int <= 122
    ensures IsAlnum(c) <==> IsAlpha(c) || 48 <= c as int <= 57
    ensures IsWord(c) <==> IsAlnum(c) || c as int == 95
  {
  }

  /** The name grammar: a letter (or, where allowed, a dollar sign), then letters, digits and
      underscores, the last of them not an underscore. */
  predicate Grammatical(name: string, allowDollarSign: bool) {
    && name != ""
    && (IsAlpha(name[0]) || (allowDollarSign && name[0] == '$'))
    && (forall c :: c in name[1..] ==> IsWord(c))
    && (|name| > 1 ==> name[|name| - 1] != '_')
  }

  predicate ValidName(name: string, maxSize: nat, allowDollarSign: bool) {
    |name| <= maxSize && Grammatical(name, allowDollarSign)
  }

  method IsValidName(name: string, maxSize: nat, allowDollarSign: bool) returns (valid: bool)
    ensures valid == ValidName(name, maxSize, allowDollarSign)
  {
    if name == "" || |name| > maxSize {
      return false;
    }
    if !IsAlpha(name[0]) && (!allowDollarSign || name[0] != '$') {
      return false;
    }
    var last := name[|name| - 1];
    if |name| > 1 && !IsAlnum(last) {
      assert last == name[1..][|name| - 2] && (last == '_' || last in name[1..]);
      return false;
    }
    var i := 1;
    while i < |name| - 1
      invariant 1 <= i
      invariant forall j :: 1 <= j < i && j < |name| - 1 ==> IsWord(name[j])
    {
      if !IsAlnum(name[i]) && name[i] != '_' {
        assert name[i] == name[1..][i - 1] && name[i] in name[1..];
        return false;
      }
      i := i + 1;
    }
    return true;
  }

  /** At most 48 characters, grammatical once a leading "hiappevent." is set aside. */
  predicate ValidEventName(name: string) {
    |name| <= MAX_LENGTH_OF_EVENT_NAME &&
    Grammatical(if EVENT_PREFIX <= name then name[|EVENT_PREFIX|..] else name, true)
  }

  method IsValidEventName(name: string) returns (valid: bool)
    ensures valid == ValidEventName(name)
  {
    if EVENT_PREFIX <= name {
      valid := IsValidName(name[|EVENT_PREFIX|..], MAX_LENGTH_OF_EVENT_NAME - |EVENT_PREFIX|, true);
    } else {
      valid := IsValidName(name, MAX_LENGTH_OF_EVENT_NAME, true);
    }
  }

  /** With the prefix, 37 characters are left for a grammatical name; without it, 48. */
  lemma EventNames(rest: string)
    ensures ValidEventName("hiappevent." + rest) <==> |rest| <= 37 && Grammatical(rest, true)
    ensures !("hiappevent." <= rest) ==> (ValidEventName(rest) <==> |rest| <= 48 && Grammatical(rest, true))
  {
    assert ("hiappevent." + rest)[11..] == rest;
  }

  // ----- What verification promises -----------------------------------------------------------------

  function MaxLength(name: string): nat {
    if name == "crash" || name == "anr" then MAX_LENGTH_OF_SPECIAL_STR_PARAM
    else MAX_LENGTH_OF_STR_PARAM
  }

  predicate LengthsFit(p: Param) {
    match p.value
    case Str(s) => |s| <= MaxLength(p.name)
    case Strs(ss) => forall s :: s in ss ==> |s| <= MAX_LENGTH_OF_STR_PARAM
    case _ => true
  }

  /** A string may have 8 KB, or 1 MB under two names; each string of a list 8 KB. */
  lemma FittingLengths(p: Param)
    ensures p.value.Str? ==>
              (LengthsFit(p) <==> |p.value.s| <= 8192 || (p.name in {"crash", "anr"} && |p.value.s| <= 1048576))
    ensures p.value.Strs? ==> (LengthsFit(p) <==> forall s :: s in p.value.ss ==> |s| <= 8192)
    ensures !p.value.Str? && !p.value.Strs? ==> LengthsFit(p)
  {
  }

  predicate Acceptable(p: Param) {
    ValidName(p.name, MAX_LENGTH_OF_PARAM_NAME, true) && LengthsFit(p)
  }

  function First100<T>(xs: seq<T>): seq<T> {
    if |xs| <= MAX_SIZE_OF_LIST_PARAM then xs else xs[..MAX_SIZE_OF_LIST_PARAM]
  }

  function Cut(v: Value): Value {
    match v
    case Bools(bs) => Bools(First100(bs))
    case Chars(cs) => Chars(First100(cs))
    case Numbers(ns, width) => Numbers(First100(ns), width)
    case Reals(fs, precision) => Reals(First100(fs), precision)
    case Strs(ss) => Strs(First100(ss))
    case _ => v
  }

  /** A value as verification leaves it: strings escaped, lists cut to a hundred elements. */
  function Stored(v: Value): Value {
    match v
    case Str(s) => Str(Escape(s))
    case Strs(ss) => Strs(First100(EscapeAll(ss)))
    case _ => Cut(v)
  }

  function Least(a: nat, b: nat): nat {
    if a <= b then a else b
  }

  /** What is stored of a value: a string whose escapes read back as it, the first hundred elements of a
      list, of strings likewise, and everything else as it is. */
  lemma StoredMeans(v: Value)
    ensures var w := Stored(v);
            && (v.Str? ==> w.Str? && Unescape(w.s) == Some(v.s))
            && (v.Strs? ==> w.Strs? && |w.ss| == Least(|v.ss|, 100))
            && (v.Strs? ==> forall i :: 0 <= i < |w.ss| ==> Unescape(w.ss[i]) == Some(v.ss[i]))
            && (v.Bools? ==> w.Bools? && w.bs <= v.bs && |w.bs| == Least(|v.bs|, 100))
            && (v.Chars? ==> w.Chars? && w.cs <= v.cs && |w.cs| == Least(|v.cs|, 100))
            && (v.Numbers? ==> w.Numbers? && w.ns <= v.ns && |w.ns| == Least(|v.ns|, 100) && w.width == v.width)
            && (v.Reals? ==>
                  w.Reals? && w.fs <= v.fs && |w.fs| == Least(|v.fs|, 100) && w.precision == v.precision)
            && (v.Empty? || v.Bool? || v.Char? || v.Number? || v.Real? ==> w == v)
  {
    match v
    case Str(s) => EscapeRoundTrip(s);
    case Strs(ss) =>
      forall i | 0 <= i < |Stored(v).ss|
        ensures Unescape(Stored(v).ss[i]) == Some(ss[i])
      {
        EscapeRoundTrip(ss[i]);
      }
    case _ =>
  }

  /** Verification changes values, never their types. */
  lemma StoredKeepsType(v: Value)
    ensures TypeOf(Stored(v)) == TypeOf(v)
  {
  }

  function ListSize(v: Value): nat {
    match v
    case Bools(bs) => |bs|
    case Chars(cs) => |cs|
    case Numbers(ns, _) => |ns|
    case Reals(fs, _) => |fs|
    case Strs(ss) => |ss|
    case _ => 0
  }

  /** Parameter i repeats the name of an earlier parameter that was good enough to be kept. */
  predicate Repeats(params: seq<Param>, i: nat)
    requires i < |params|
  {
    exists j :: 0 <= j < i && params[j].name == params[i].name && Acceptable(params[j])
  }

  predicate Kept(params: seq<Param>, i: nat)
    requires i < |params|
  {
    Acceptable(params[i]) && !Repeats(params, i)
  }

  /** The kept ones among the first n parameters, in order and as stored. */
  function Surviving(params: seq<Param>, n: nat): seq<Param>
    requires n <= |params|
  {
    if n == 0 then []
    else if Kept(params, n - 1) then
      Surviving(params, n - 1) + [Param(params[n - 1].name, Stored(params[n - 1].value))]
    else Surviving(params, n - 1)
  }

  function First32(params: seq<Param>): seq<Param> {
    if |params| <= MAX_NUM_OF_PARAMS then params else params[..MAX_NUM_OF_PARAMS]
  }

  /** What is wrong with a parameter, as an error code; 0 when nothing is. */
  function Issue(p: Param, repeats: bool): int {
    if repeats then ERROR_DUPLICATE_PARAM
    else if !ValidName(p.name, MAX_LENGTH_OF_PARAM_NAME, true) then ERROR_INVALID_PARAM_NAME
    else if !LengthsFit(p) then ERROR_INVALID_PARAM_VALUE_LENGTH
    else if ListSize(p.value) > MAX_SIZE_OF_LIST_PARAM then ERROR_INVALID_LIST_PARAM_SIZE
    else VERIFY_SUCCESSFUL
  }

  function Latest(before: int, issue: int): int {
    if issue != VERIFY_SUCCESSFUL then issue else before
  }

  /** The last issue among the first n parameters. */
  function LastIssue(params: seq<Param>, n: nat): int
    requires n <= |params|
  {
    if n == 0 then VERIFY_SUCCESSFUL
    else Latest(LastIssue(params, n - 1), Issue(params[n - 1], Repeats(params, n - 1)))
  }

  function Verdict(params: seq<Param>): int {
    if |Surviving(params, |params|)| > MAX_NUM_OF_PARAMS then ERROR_INVALID_PARAM_NUM
    else LastIssue(params, |params|)
  }

  // ----- The procedure ----------------------------------------------------------------------------

  method CheckStrParamLength(s: string, maxLen: nat) returns (ok: bool, s': string)
    ensures ok <==> |s| <= maxLen
    ensures s' == if ok then Escape(s) else s
  {
    if s == "" {
      return true, s;
    }
    if |s| > maxLen {
      return false, s;
    }
    s' := EscapeStringValue(s);
    ok := true;
  }

  method CheckListValueSize(v: Value) returns (ok: bool, v': Value)
    ensures ok <==> ListSize(v) <= MAX_SIZE_OF_LIST_PARAM
    ensures v' == Cut(v)
    ensures v.Bools? ==> v'.Bools? && v'.bs <= v.bs && |v'.bs| == Least(|v.bs|, 100)
    ensures v.Chars? ==> v'.Chars? && v'.cs <= v.cs && |v'.cs| == Least(|v.cs|, 100)
    ensures v.Numbers? ==> v'.Numbers? && v'.ns <= v.ns && |v'.ns| == Least(|v.ns|, 100) && v'.width == v.width
    ensures v.Reals? ==> v'.Reals? && v'.fs <= v.fs && |v'.fs| == Least(|v.fs|, 100) && v'.precision == v.precision
    ensures v.Strs? ==> v'.Strs? && v'.ss <= v.ss && |v'.ss| == Least(|v.ss|, 100)
    ensures ListSize(v) == 0 ==> v' == v
  {
    ok, v' := false, v;
    match v {
      case Bools(bs) =>
        if |bs| > MAX_SIZE_OF_LIST_PARAM { v' := Bools(bs[..MAX_SIZE_OF_LIST_PARAM]); return; }
      case Chars(cs) =>
        if |cs| > MAX_SIZE_OF_LIST_PARAM { v' := Chars(cs[..MAX_SIZE_OF_LIST_PARAM]); return; }
      case Numbers(ns, width) =>
        if |ns| > MAX_SIZE_OF_LIST_PARAM { v' := Numbers(ns[..MAX_SIZE_OF_LIST_PARAM], width); return; }
      case Reals(fs, precision) =>
        if |fs| > MAX_SIZE_OF_LIST_PARAM { v' := Reals(fs[..MAX_SIZE_OF_LIST_PARAM], precision); return; }
      case Strs(ss) =>
        if |ss| > MAX_SIZE_OF_LIST_PARAM { v' := Strs(ss[..MAX_SIZE_OF_LIST_PARAM]); return; }
      case _ =>
    }
    ok := true;
  }

  /** Escape the elements in place until one is too long. */
  method CheckStringLengthOfList(ss: seq<string>) returns (ok: bool, ss': seq<string>)
    ensures ok <==> forall s :: s in ss ==> |s| <= MAX_LENGTH_OF_STR_PARAM
    ensures ok ==> ss' == EscapeAll(ss)
  {
    hide Escape, EscapeAll;
    ss' := ss;
    var i := 0;
    assert EscapeAll(ss[..0]) + ss[0..] == ss;
    while i < |ss'|
      invariant 0 <= i <= |ss'| == |ss|
      invariant ss' == EscapeAll(ss[..i]) + ss[i..]
      invariant forall j :: 0 <= j < i ==> |ss[j]| <= MAX_LENGTH_OF_STR_PARAM
    {
      var fits, s := CheckStrParamLength(ss'[i], MAX_LENGTH_OF_STR_PARAM);
      assert ss'[i] == ss[i] && ss[i] in ss;
      if !fits {
        return false, ss';
      }
      EscapeNext(ss, i);
      ss' := ss'[i := s];
      i := i + 1;
    }
    assert ss[..i] == ss;
    ok := true;
  }

  lemma EscapeNext(ss: seq<string>, i: nat)
    requires i < |ss|
    ensures (EscapeAll(ss[..i]) + ss[i..])[i := Escape(ss[i])] == EscapeAll(ss[..i + 1]) + ss[i + 1..]
  {
    assert ss[..i + 1][..i] == ss[..i];
  }

  method VerifyAppEventParam(param: Param, paramNames: set<string>, verifyRes: int)
    returns (keep: bool, param': Param, verifyRes': int)
    ensures keep <==> Acceptable(param) && param.name !in paramNames
    ensures keep ==> param' == Param(param.name, Stored(param.value))
    ensures verifyRes' == Latest(verifyRes, Issue(param, param.name in paramNames))
  {
    param' := param;
    if param.name in paramNames {
      return false, param', ERROR_DUPLICATE_PARAM;
    }
    var named := IsValidName(param.name, MAX_LENGTH_OF_PARAM_NAME, true);
    if !named {
      return false, param', ERROR_INVALID_PARAM_NAME;
    }
    var maxLen := if param.name !in {"crash", "anr"} then MAX_LENGTH_OF_STR_PARAM
                  else MAX_LENGTH_OF_SPECIAL_STR_PARAM;
    if param.value.Str? {
      var fits, s := CheckStrParamLength(param.value.s, maxLen);
      param' := Param(param.name, Str(s));
      if !fits {
        return false, param', ERROR_INVALID_PARAM_VALUE_LENGTH;
      }
    }
    if param.value.Strs? {
      var fits, ss := CheckStringLengthOfList(param.value.ss);
      param' := Param(param.name, Strs(ss));
      if !fits {
        return false, param', ERROR_INVALID_PARAM_VALUE_LENGTH;
      }
    }
    var fits, v := CheckListValueSize(param'.value);
    param' := Param(param.name, v);
    return true, param', if fits then verifyRes else ERROR_INVALID_LIST_PARAM_SIZE;
  }

  /** The names of the good parameters among the first n. */
  function NamesOf(params: seq<Param>, n: nat): set<string>
    requires n <= |params|
  {
    set i | 0 <= i < n && Acceptable(params[i]) :: params[i].name
  }

  /** The set of kept names answers the question whether parameter n repeats an earlier one. */
  lemma NamesTell(params: seq<Param>, n: nat)
    requires n < |params|
    ensures params[n].name in NamesOf(params, n) <==> Repeats(params, n)
    ensures Kept(params, n) ==> NamesOf(params, n + 1) == NamesOf(params, n) + {params[n].name}
    ensures !Kept(params, n) ==> NamesOf(params, n + 1) == NamesOf(params, n)
  {
    if params[n].name in NamesOf(params, n) {
      var j :| 0 <= j < n && Acceptable(params[j]) && params[j].name == params[n].name;
      assert Repeats(params, n);
    }
    assert NamesOf(params, n + 1) ==
      NamesOf(params, n) + if Acceptable(params[n]) then {params[n].name} else {};
  }

  /** The state of the filter once n parameters have been looked at: the survivors so far stand in
      front of the untouched rest, and `it` is the boundary. */
  ghost predicate Filtering(params: seq<Param>, n: nat, list: seq<Param>, it: nat,
                            names: set<string>, res: int)
  {
    && n <= |params|
    && it == |Surviving(params, n)| && list == Surviving(params, n) + params[n..]
    && names == NamesOf(params, n)
    && res == LastIssue(params, n)
  }

  lemma FilterStart(params: seq<Param>)
    ensures Filtering(params, 0, params, 0, {}, VERIFY_SUCCESSFUL)
  {
  }

  lemma FilterEnd(params: seq<Param>, n: nat, list: seq<Param>, it: nat, names: set<string>, res: int)
    requires Filtering(params, n, list, it, names, res) && it >= |list|
    ensures list == Surviving(params, |params|) && res == LastIssue(params, |params|)
  {
    assert n == |params|;
  }

  /** Overwriting, or erasing, the element at the boundary moves the filter one parameter on. */
  lemma FilterStep(params: seq<Param>, n: nat, list: seq<Param>, it: nat, names: set<string>, res: int)
    requires Filtering(params, n, list, it, names, res) && it < |list|
    ensures n < |params| && list[it] == params[n]
    ensures var p := list[it];
            var res' := Latest(res, Issue(p, p.name in names));
            if Acceptable(p) && p.name !in names then
              Filtering(params, n + 1, list[it := Param(p.name, Stored(p.value))], it + 1,
                        names + {p.name}, res')
            else
              Filtering(params, n + 1, list[..it] + list[it + 1..], it, names, res')
  {
    NamesTell(params, n);
  }

  /** Look at the list element at `it`: keep it and step over it, or erase it. */
  method VisitParam(event: AppEventPack, it: nat, paramNames: set<string>, res: int,
                    ghost params: seq<Param>, ghost n: nat)
    returns (it': nat, paramNames': set<string>, res': int)
    requires Filtering(params, n, event.baseParams, it, paramNames, res) && it < |event.baseParams|
    modifies event`baseParams
    ensures n < |params| && Filtering(params, n + 1, event.baseParams, it', paramNames', res')
  {
    FilterStep(params, n, event.baseParams, it, paramNames, res);
    var keep, p;
    keep, p, res' := VerifyAppEventParam(event.baseParams[it], paramNames, res);
    if !keep {
      event.baseParams := event.baseParams[..it] + event.baseParams[it + 1..];
      return it, paramNames, res';
    }
    event.baseParams := event.baseParams[it := p];
    return it + 1, paramNames + {p.name}, res';
  }

  /** Take the bad parameters out of the event's list, in place. */
  method FilterParams(event: AppEventPack) returns (res: int)
    modifies event`baseParams
    ensures var params := old(event.baseParams);
            event.baseParams == Surviving(params, |params|) && res == LastIssue(params, |params|)
  {
    res := VERIFY_SUCCESSFUL;
    ghost var params, n := event.baseParams, 0;
    var paramNames := {};
    var it: nat := 0;
    FilterStart(params);
    while it < |event.baseParams|
      invariant Filtering(params, n, event.baseParams, it, paramNames, res)
      decreases |params| - n
    {
      it, paramNames, res := VisitParam(event, it, paramNames, res, params, n);
      n := n + 1;
    }
    FilterEnd(params, n, event.baseParams, it, paramNames, res);
  }

  method VerifyAppEvent(event: AppEventPack, disabled: bool) returns (res: int)
    modifies event`baseParams
    ensures res == ERROR_HIAPPEVENT_DISABLE <==> disabled
    ensures res == ERROR_INVALID_EVENT_DOMAIN <==>
              !disabled && !ValidName(event.domain, MAX_LEN_OF_DOMAIN, false)
    ensures res == ERROR_INVALID_EVENT_NAME <==>
              !disabled && ValidName(event.domain, MAX_LEN_OF_DOMAIN, false) && !ValidEventName(event.name)
    ensures res < 0 ==> event.baseParams == old(event.baseParams)
    ensures disabled ==> res == -99
    ensures res == -4 <==> !disabled && !ValidName(event.domain, 32, false)
    ensures res == -1 <==> !disabled && ValidName(event.domain, 32, false) && !ValidEventName(event.name)
    ensures res >= 0 ==>
              var params := old(event.baseParams);
              res == if |Surviving(params, |params|)| > 32 then 5 else LastIssue(params, |params|)
    ensures res >= 0 ==>
              var params := old(event.baseParams);
              && event.baseParams == First32(Surviving(params, |params|)) && res == Verdict(params)
              && event.baseParams <= Surviving(params, |params|)
              && |event.baseParams| == Least(|Surviving(params, |params|)|, 32)
  {
    if disabled {
      return ERROR_HIAPPEVENT_DISABLE;
    }
    var ok := IsValidName(event.domain, MAX_LEN_OF_DOMAIN, false);
    if !ok {
      return ERROR_INVALID_EVENT_DOMAIN;
    }
    ok := IsValidEventName(event.name);
    if !ok {
      return ERROR_INVALID_EVENT_NAME;
    }
    VerdictRange(event.baseParams, |event.baseParams|);
    res := FilterParams(event);
    if |event.baseParams| > MAX_NUM_OF_PARAMS {
      event.baseParams := event.baseParams[..MAX_NUM_OF_PARAMS];
      res := ERROR_INVALID_PARAM_NUM;
    }
  }

  lemma {:induction false} VerdictRange(params: seq<Param>, n: nat)
    requires n <= |params|
    ensures LastIssue(params, n) >= 0
  {
    if n > 0 {
      VerdictRange(params, n - 1);
    }
  }

  // ----- Consequences -----------------------------------------------------------------------------

  /** A parameter repeats an earlier acceptable one exactly when it repeats an earlier kept one. */
  lemma {:induction false} RepeatsMeansRepeatsKept(params: seq<Param>, i: nat)
    requires i < |params|
    ensures Repeats(params, i) <==>
              exists j :: 0 <= j < i && Kept(params, j) && params[j].name == params[i].name
    decreases i
  {
    if j :| 0 <= j < i && params[j].name == params[i].name && Acceptable(params[j]) {
      RepeatsMeansRepeatsKept(params, j);
      if !Kept(params, j) {
        var k :| 0 <= k < j && Kept(params, k) && params[k].name == params[j].name;
        assert k < i && params[k].name == params[i].name;
      }
    }
  }

  ghost predicate DistinctNames(params: seq<Param>) {
    forall i, j :: 0 <= i < j < |params| ==> params[i].name != params[j].name
  }

  /** Where a survivor came from. */
  lemma {:induction false} Origin(params: seq<Param>, n: nat, k: nat) returns (i: nat)
    requires n <= |params| && k < |Surviving(params, n)|
    ensures i < n && Kept(params, i)
    ensures Surviving(params, n)[k] == Param(params[i].name, Stored(params[i].value))
  {
    if Kept(params, n - 1) && k == |Surviving(params, n)| - 1 {
      i := n - 1;
    } else {
      i := Origin(params, n - 1, k);
    }
  }

  /** The survivors, in order: they come from strictly increasing places, all of which and only which are
      kept. */
  lemma {:induction false} SurvivorsInOrder(params: seq<Param>, n: nat) returns (places: seq<nat>)
    requires n <= |params|
    ensures |places| == |Surviving(params, n)| <= n
    ensures forall k :: 0 <= k < |places| ==> places[k] < n
    ensures forall k, l :: 0 <= k < l < |places| ==> places[k] < places[l]
    ensures forall i :: 0 <= i < n ==> (i in places <==> Kept(params, i))
    ensures forall k :: 0 <= k < |places| ==>
              Surviving(params, n)[k] == Param(params[places[k]].name, Stored(params[places[k]].value))
  {
    places := [];
    if n > 0 {
      hide Kept, Stored;
      places := SurvivorsInOrder(params, n - 1);
      if Kept(params, n - 1) {
        places := places + [n - 1];
      }
    }
  }

  /** What an issue is, in the order in which it is looked for. */
  lemma IssueNumbers(p: Param, repeats: bool)
    ensures repeats ==> Issue(p, repeats) == 8
    ensures !repeats && !ValidName(p.name, 32, true) ==> Issue(p, repeats) == 1
    ensures !repeats && ValidName(p.name, 32, true) && !LengthsFit(p) ==> Issue(p, repeats) == 4
    ensures !repeats && Acceptable(p) ==> Issue(p, repeats) == if ListSize(p.value) > 100 then 6 else 0
  {
  }

  /** The verdict of the filter is the issue of the last parameter that has one, or 0. */
  lemma {:induction false} LastIssueMeans(params: seq<Param>, n: nat) returns (i: nat)
    requires n <= |params|
    ensures LastIssue(params, n) != 0 ==>
              i < n && LastIssue(params, n) == Issue(params[i], Repeats(params, i)) &&
              forall j :: i < j < n ==> Issue(params[j], Repeats(params, j)) == 0
    ensures LastIssue(params, n) == 0 ==> forall j :: 0 <= j < n ==> Issue(params[j], Repeats(params, j)) == 0
  {
    i := 0;
    if n > 0 {
      hide Issue, Repeats;
      i := LastIssueMeans(params, n - 1);
      if Issue(params[n - 1], Repeats(params, n - 1)) != 0 {
        i := n - 1;
      }
    }
  }

  /** The survivors carry distinct, grammatical names. */
  lemma {:induction false} SurvivorsDistinct(params: seq<Param>, n: nat)
    requires n <= |params|
    ensures DistinctNames(Surviving(params, n))
    ensures forall p :: p in Surviving(params, n) ==> ValidName(p.name, MAX_LENGTH_OF_PARAM_NAME, true)
  {
    if n > 0 {
      SurvivorsDistinct(params, n - 1);
      var before := Surviving(params, n - 1);
      if Kept(params, n - 1) {
        forall k | 0 <= k < |before|
          ensures before[k].name != params[n - 1].name
        {
          var i := Origin(params, n - 1, k);
        }
      }
    }
  }

  /** Parameter i calls for no change other than escaping. */
  ghost predicate SpotlessAt(params: seq<Param>, i: nat)
    requires i < |params|
  {
    && Acceptable(params[i]) && ListSize(params[i].value) <= MAX_SIZE_OF_LIST_PARAM
    && forall j :: 0 <= j < i ==> params[j].name != params[i].name
  }

  ghost predicate Spotless(params: seq<Param>, n: nat)
    requires n <= |params|
  {
    forall i :: 0 <= i < n ==> SpotlessAt(params, i)
  }

  /** Behind spotless parameters, the next one is spotless exactly if it has no issue. */
  lemma SpotlessNext(params: seq<Param>, n: nat)
    requires n < |params| && Spotless(params, n)
    ensures SpotlessAt(params, n) <==> Issue(params[n], Repeats(params, n)) == VERIFY_SUCCESSFUL
    ensures SpotlessAt(params, n) ==> Kept(params, n)
  {
    forall j | 0 <= j < n
      ensures Acceptable(params[j])
    {
      assert SpotlessAt(params, j);
    }
  }

  lemma {:induction false} NoIssueMeansSpotless(params: seq<Param>, n: nat)
    requires n <= |params|
    ensures LastIssue(params, n) == VERIFY_SUCCESSFUL <==> Spotless(params, n)
    ensures Spotless(params, n) ==> |Surviving(params, n)| == n
  {
    if n > 0 {
      NoIssueMeansSpotless(params, n - 1);
      if Spotless(params, n - 1) {
        SpotlessNext(params, n - 1);
      }
    }
  }

  /** The verdict is "successful" exactly when nothing was dropped and nothing was cut. */
  lemma SuccessMeansUntouched(params: seq<Param>)
    ensures Verdict(params) == VERIFY_SUCCESSFUL <==>
              Spotless(params, |params|) && |params| <= MAX_NUM_OF_PARAMS
  {
    NoIssueMeansSpotless(params, |params|);
  }
}
