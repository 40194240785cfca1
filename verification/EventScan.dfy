/** What the scanner recovers from a whole printed event, and from text that was spliced into it: it
    finds exactly the intended members if and only if every name and every value is one by itself. */
module EventScan {
  import opened Wrappers
  import opened Sequences
  import opened EventTypes
  import opened Escaping
  import opened Decimal
  import opened EventJson
  import opened JsonScan
  import EventVerify

  // ----- The scanner is local -----------------------------------------------------------------------

  /** The first n characters are the same. */
  predicate Agree(s: string, t: string, n: nat) {
    n <= |s| && n <= |t| && s[..n] == t[..n]
  }

  predicate DelimiterAt(t: string, n: nat) {
    n < |t| && IsDelimiter(t[n])
  }

  lemma AgreeOn(s: string, t: string, n: nat, k: nat)
    requires Agree(s, t, n) && k <= n
    ensures Agree(s[k..], t[k..], n - k) && forall i :: 0 <= i < n ==> s[i] == t[i]
  {
    assert s[k..][..n - k] == s[..n][k..] && t[k..][..n - k] == t[..n][k..];
    assert forall i :: 0 <= i < n ==> s[i] == s[..n][i] && t[i] == t[..n][i];
  }

  /** What a scan accepts it accepts by itself: nothing behind it has a say. */
  lemma {:induction false} StringLocal(s: string, t: string)
    requires ScanString(s).Some? && Agree(s, t, ScanString(s).value)
    ensures ScanString(t) == ScanString(s) && ScanString(s).value > 0
    decreases |s|
  {
    var n := ScanString(s).value;
    AgreeOn(s, t, n, 0);
    if s[0] == '\"' {
    } else if s[0] == '\\' {
      var m := EscapeSequence(s).value;
      StringPositive(s[m..]);
      AgreeOn(s, t, n, m);
      StringLocal(s[m..], t[m..]);
    } else {
      StringPositive(s[1..]);
      AgreeOn(s, t, n, 1);
      StringLocal(s[1..], t[1..]);
    }
  }

  lemma {:induction false} StringPositive(s: string)
    ensures ScanString(s).Some? ==> ScanString(s).value > 0
    decreases |s|
  {
    if s != "" && s[0] == '\\' {
      if EscapeSequence(s).Some? {
        StringPositive(s[EscapeSequence(s).value..]);
      }
    } else if s != "" {
      StringPositive(s[1..]);
    }
  }

  lemma {:induction false} BareLocal(s: string, t: string)
    requires Agree(s, t, BareLength(s)) && DelimiterAt(t, BareLength(s))
    ensures BareLength(t) == BareLength(s)
  {
    var n := BareLength(s);
    AgreeOn(s, t, n, 0);
    if n > 0 {
      AgreeOn(s, t, n, 1);
      BareLocal(s[1..], t[1..]);
    }
  }

  lemma ScalarLocal(s: string, t: string)
    requires ScanScalar(s).Some?
    requires Agree(s, t, ScanScalar(s).value) && DelimiterAt(t, ScanScalar(s).value)
    ensures ScanScalar(t) == ScanScalar(s)
  {
    var n := ScanScalar(s).value;
    AgreeOn(s, t, n, 0);
    if s[0] == '\"' {
      AgreeOn(s, t, n, 1);
      StringLocal(s[1..], t[1..]);
    } else {
      BareLocal(s, t);
    }
  }

  lemma {:induction false} ValueLocal(s: string, t: string)
    requires ScanValue(s).Some?
    requires Agree(s, t, ScanValue(s).value) && DelimiterAt(t, ScanValue(s).value)
    ensures ScanValue(t) == ScanValue(s)
    decreases |s|, 4
  {
    hide ScanScalar, ScanElements, ScanObject;
    var n := ScanValue(s).value;
    AgreeOn(s, t, n, 0);
    if s[0] == '[' {
      if |s| == 1 {
        NothingScans();
      }
      if s[1] != ']' {
        AgreeOn(s, t, n, 1);
        ElementsLocal(s[1..], t[1..]);
      }
    } else if s[0] == '{' {
      ObjectLocal(s, t);
    } else {
      ScalarLocal(s, t);
    }
  }

  lemma NothingScans()
    ensures ScanElements("") == None
  {
  }

  lemma {:induction false} ElementsLocal(s: string, t: string)
    requires ScanElements(s).Some? && Agree(s, t, ScanElements(s).value)
    ensures ScanElements(t) == ScanElements(s)
    decreases |s|, 5
  {
    hide ScanValue;
    var n, m := ScanElements(s).value, ScanValue(s).value;
    AgreeOn(s, t, n, 0);
    AgreeOn(s, t, n, m + 1);
    AgreeShorter(s, t, n, m);
    ValueLocal(s, t);
    if s[m] == ',' {
      ElementsLocal(s[m + 1..], t[m + 1..]);
    }
  }

  lemma AgreeShorter(s: string, t: string, n: nat, m: nat)
    requires Agree(s, t, n) && m <= n
    ensures Agree(s, t, m)
  {
    assert s[..m] == s[..n][..m] && t[..m] == t[..n][..m];
  }

  lemma {:induction false} MemberLocal(s: string, t: string)
    requires ScanMember(s).Some?
    requires Agree(s, t, ScanMember(s).value.1) && DelimiterAt(t, ScanMember(s).value.1)
    ensures ScanMember(t) == ScanMember(s)
    decreases |s|, 1
  {
    hide ScanValue, ScanString;
    var n, k := ScanMember(s).value.1, ScanString(s[1..]).value;
    var m := ScanValue(s[k + 2..]).value;
    assert n == k + 2 + m;
    AgreeOn(s, t, n, 0);
    AgreeOn(s, t, n, 1);
    AgreeShorter(s[1..], t[1..], n - 1, k);
    StringLocal(s[1..], t[1..]);
    AgreeOn(s, t, n, k + 2);
    ValueLocal(s[k + 2..], t[k + 2..]);
    assert s[1..k] == t[1..k] && s[k + 2..n] == t[k + 2..n];
  }

  /** What is behind an object is the end of the text. */
  lemma {:induction false} MembersSuffix(s: string)
    requires ScanMembers(s).Scanned?
    ensures var rest := ScanMembers(s).rest; |rest| < |s| && rest == s[|s| - |rest|..]
    decreases |s|
  {
    hide ScanMember;
    var n := ScanMember(s).value.1;
    if s[n] == ',' {
      MembersSuffix(s[n + 1..]);
    }
  }

  lemma {:induction false} MembersLocal(s: string, t: string)
    requires ScanMembers(s).Scanned? && |ScanMembers(s).rest| <= |s|
    requires Agree(s, t, |s| - |ScanMembers(s).rest|)
    ensures ScanMembers(t) == Scanned(ScanMembers(s).members, t[|s| - |ScanMembers(s).rest|..])
    decreases |s|, 2
  {
    hide ScanMember, ScanMembers;
    MembersUnfold(s);
    MembersUnfold(t);
    var n, m := |s| - |ScanMembers(s).rest|, ScanMember(s).value.1;
    if s[m] == ',' {
      MembersSuffix(s[m + 1..]);
    }
    AgreeOn(s, t, n, m + 1);
    AgreeShorter(s, t, n, m);
    MemberLocal(s, t);
    if s[m] == ',' {
      MembersLocal(s[m + 1..], t[m + 1..]);
    }
  }

  lemma MembersUnfold(s: string)
    ensures var r := ScanMember(s);
            ScanMembers(s) ==
              if r.None? || r.value.1 == |s| then Malformed
              else if s[r.value.1] == '}' then Scanned([r.value.0], s[r.value.1 + 1..])
              else if s[r.value.1] == ',' then Prepend(r.value.0, ScanMembers(s[r.value.1 + 1..]))
              else Malformed
  {
    hide ScanMember, ScanMemberValue, ScanValue, ScanElements, ScanObject, ScanScalar, Prepend;
  }

  lemma {:induction false} ObjectLocal(s: string, t: string)
    requires ScanObject(s).Scanned? && |ScanObject(s).rest| <= |s|
    requires Agree(s, t, |s| - |ScanObject(s).rest|)
    ensures ScanObject(t) == Scanned(ScanObject(s).members, t[|s| - |ScanObject(s).rest|..])
    decreases |s|, 3
  {
    hide ScanMembers;
    var n := |s| - |ScanObject(s).rest|;
    if |s| > 1 && s[1] == '}' {
      AgreeOn(s, t, n, 0);
    } else {
      MembersSuffix(s[1..]);
      AgreeOn(s, t, n, 0);
      AgreeOn(s, t, n, 1);
      MembersLocal(s[1..], t[1..]);
    }
  }

  // ----- Names and values by themselves -------------------------------------------------------------

  /** The inside of one string literal: no bare quotation mark, no control character, and every
      backslash at the start of an escape sequence (RFC 8259, section 7). */
  predicate PlainInside(s: string)
    decreases |s|
  {
    if s == "" then true
    else if s[0] < ' ' || s[0] == '\"' then false
    else if s[0] == '\\' then EscapeSequence(s).Some? && PlainInside(s[EscapeSequence(s).value..])
    else PlainInside(s[1..])
  }

  /** The scan stops exactly behind the closing quotation mark for such text, and for no other. */
  lemma {:induction false} InsideScans(s: string, rest: string)
    ensures ScanString(s + "\"" + rest) == Some(|s| + 1) <==> PlainInside(s)
    decreases |s|
  {
    var text := s + "\"" + rest;
    assert text[|s|] == '\"';
    if s == "" {
    } else if s[0] == '\\' {
      assert text[0] == s[0] && text[1] == if |s| > 1 then s[1] else '\"';
      EscapeInside(s, rest);
      match EscapeSequence(text)
      case None =>
      case Some(n) =>
        StringPositive(text[n..]);
        if n <= |s| {
          assert text[n..] == s[n..] + "\"" + rest;
          InsideScans(s[n..], rest);
        }
    } else {
      assert text[0] == s[0] && text[1..] == s[1..] + "\"" + rest;
      InsideScans(s[1..], rest);
    }
  }

  /** An escape sequence ends within the text, or the closing quotation mark is its second character. */
  lemma EscapeInside(s: string, rest: string)
    requires s != "" && s[0] == '\\'
    ensures var text := s + "\"" + rest;
            if |s| == 1 then EscapeSequence(text) == Some(2) && EscapeSequence(s) == None
            else EscapeSequence(text) == EscapeSequence(s)
    ensures EscapeSequence(s).Some? ==> EscapeSequence(s).value <= |s|
  {
    var text := s + "\"" + rest;
    assert text[|s|] == '\"' && forall i :: 0 <= i < |s| ==> text[i] == s[i];
  }

  /** A value by itself: the scan reaches exactly to its end. */
  predicate WholeValue(v: string) {
    ScanValue(v + ",") == Some(|v|)
  }

  lemma WholeAnywhere(v: string, rest: string)
    requires Ends(rest)
    ensures ScanValue(v + rest) == Some(|v|) <==> WholeValue(v)
  {
    hide ScanValue;
    var s, t := v + rest, v + ",";
    assert s[..|v|] == v == t[..|v|] && s[|v|] == rest[0] && t[|v|] == ',';
    if ScanValue(s) == Some(|v|) {
      ValueLocal(s, t);
    }
    if ScanValue(t) == Some(|v|) {
      ValueLocal(t, s);
    }
  }

  predicate GoodPair(p: CustomParam) {
    PlainInside(p.key) && WholeValue(p.value)
  }

  ghost predicate AllGood(pairs: seq<CustomParam>) {
    forall i :: 0 <= i < |pairs| ==> GoodPair(pairs[i])
  }

  // ----- Members ------------------------------------------------------------------------------------

  lemma KeyShape(p: CustomParam, rest: string)
    ensures var s, n := PairText(p) + rest, |p.key| + 1;
            && n + 1 < |s| && s[0] == '\"' && s[n] == '\"' && s[n + 1] == ':'
            && s[1..] == p.key + "\"" + (":" + p.value + rest)
            && s[1..n] == p.key && s[n + 2..] == p.value + rest
            && |PairText(p)| == n + 2 + |p.value|
            && s[n + 2..n + 2 + |p.value|] == p.value
  {
    MemberShape(p.key, p.value, rest);
  }

  /** A printed pair is read back as itself if and only if it is good. */
  lemma PairScans(p: CustomParam, rest: string)
    requires Ends(rest)
    ensures var r := ScanMember(PairText(p) + rest);
            && (r.Some? && r.value.0 == p <==> GoodPair(p))
            && (r.Some? && r.value.0 == p ==> r.value.1 == |PairText(p)|)
  {
    hide ScanString, ScanValue, PlainInside, WholeValue;
    var s, n := PairText(p) + rest, |p.key| + 1;
    KeyShape(p, rest);
    InsideScans(p.key, ":" + p.value + rest);
    WholeAnywhere(p.value, rest);
    var name := ScanString(s[1..]);
    assert ScanMember(s) == ScanMemberValue(s, name);
    if name == Some(n) {
      var value := ScanValue(s[n + 2..]);
      if value.Some? && value != Some(|p.value|) {
        assert |s[n + 2..n + 2 + value.value]| == value.value;
      }
    } else if name.Some? && name.value > 0 && name.value + 1 < |s| {
      assert |s[1..name.value]| == name.value - 1;
    }
  }

  function PairsText(pairs: seq<CustomParam>): string {
    Join(Texts(pairs, PairText)) + "}"
  }

  lemma PairsFront(pairs: seq<CustomParam>, rest: string)
    requires pairs != []
    ensures PairsText(pairs) + rest == PairText(pairs[0]) +
              if |pairs| == 1 then "}" + rest else "," + (PairsText(pairs[1..]) + rest)
  {
    hide Join, PairText;
    var texts := Texts(pairs, PairText);
    JoinFront(texts);
    if |pairs| == 1 {
      Regroup(texts[0], "}", rest);
    } else {
      assert texts[1..] == Texts(pairs[1..], PairText);
      RegroupMembers(texts[0], Join(texts[1..]), rest);
    }
  }

  /** One step of the member scan, past whatever member was found. */
  lemma StepScans(p: CustomParam, after: string)
    requires Ends(after) && after[0] != ']'
    ensures var r := ScanMembers(PairText(p) + after);
            if !GoodPair(p) then r == Malformed || r.members[0] != p
            else if after[0] == '}' then r == Scanned([p], after[1..])
            else r == Prepend(p, ScanMembers(after[1..]))
  {
    hide ScanMember, GoodPair, PairText;
    PairScans(p, after);
    var text := PairText(p) + after;
    if GoodPair(p) {
      assert text[|PairText(p)|] == after[0] && text[|PairText(p)| + 1..] == after[1..];
    }
  }

  /** Printed pairs are read back, all of them and nothing else, if and only if all are good. */
  lemma {:induction false} PairsScan(pairs: seq<CustomParam>, rest: string)
    requires pairs != []
    ensures ScanMembers(PairsText(pairs) + rest) == Scanned(pairs, rest) <==> AllGood(pairs)
  {
    hide ScanMembers, PairsText, PairText, GoodPair;
    var p := pairs[0];
    PairsFront(pairs, rest);
    assert pairs == [p] + pairs[1..];
    if |pairs| == 1 {
      StepScans(p, "}" + rest);
      assert ("}" + rest)[1..] == rest;
    } else {
      var after := PairsText(pairs[1..]) + rest;
      StepScans(p, "," + after);
      assert ("," + after)[1..] == after;
      PairsScan(pairs[1..], rest);
      PrependedPairs(p, pairs[1..], ScanMembers(after), rest);
    }
  }

  lemma PrependedPairs(p: CustomParam, pairs: seq<CustomParam>, r: Scanned, rest: string)
    ensures Prepend(p, r) == Scanned([p] + pairs, rest) <==> r == Scanned(pairs, rest)
  {
    if r.Scanned? && [p] + r.members == [p] + pairs {
      assert ([p] + r.members)[1..] == r.members && ([p] + pairs)[1..] == pairs;
    }
  }

  /** The same for a printed object: it is read back if and only if all its members are good. */
  lemma PairObjectScans(pairs: seq<CustomParam>)
    ensures ScanObject(ObjectText(Texts(pairs, PairText))) == Scanned(pairs, "\n") <==> AllGood(pairs)
  {
    hide ScanObject, ScanMembers, GoodPair;
    if pairs == [] {
      EmptyObjectScans();
    } else {
      var inside := PairsText(pairs) + "\n";
      PairObjectShape(pairs);
      PairsScan(pairs, "\n");
      ObjectStep(ObjectText(Texts(pairs, PairText)), inside);
    }
  }

  lemma PairObjectShape(pairs: seq<CustomParam>)
    requires pairs != []
    ensures var text := ObjectText(Texts(pairs, PairText));
            |text| > 1 && text[0] == '{' && text[1] == '\"' && text[1..] == PairsText(pairs) + "\n"
  {
    hide Join;
    JoinFront(Texts(pairs, PairText));
    BraceShape(Join(Texts(pairs, PairText)), PairText(pairs[0]));
  }

  // ----- Spliced text -------------------------------------------------------------------------------

  /** After any series of `AddCustomParams` calls the text is read back as the old members followed by
      all added pairs if and only if each of them, old or added, is good by itself. */
  lemma SplicedScans(members: seq<CustomParam>, calls: seq<seq<CustomParam>>)
    ensures var text := AfterCalls(ObjectText(Texts(members, PairText)), calls);
            ScanObject(text) == Scanned(members + Flatten(calls), "\n")
            <==> AllGood(members) && AllGood(Flatten(calls))
  {
    hide ScanObject, GoodPair;
    PairsNotEmpty(members);
    CallsAccumulate(Texts(members, PairText), calls);
    TextsConcat(members, Flatten(calls), PairText);
    PairObjectScans(members + Flatten(calls));
    AllGoodConcat(members, Flatten(calls));
  }

  lemma AllGoodConcat(xs: seq<CustomParam>, ys: seq<CustomParam>)
    ensures AllGood(xs + ys) <==> AllGood(xs) && AllGood(ys)
  {
    hide GoodPair;
    assert forall i :: 0 <= i < |xs| ==> (xs + ys)[i] == xs[i];
    assert forall i :: 0 <= i < |ys| ==> (xs + ys)[|xs| + i] == ys[i];
  }

  // ----- Whole events -------------------------------------------------------------------------------

  /** The fixed members of an event. */
  function BaseMembers(base: Base): seq<CustomParam> {
    [CustomParam("domain_", Quoted(base.domain)), CustomParam("name_", Quoted(base.name)),
     CustomParam("type_", IntText(base.kind)), CustomParam("time_", IntText(base.time)),
     CustomParam("tz_", Quoted(base.timeZone)), CustomParam("pid_", IntText(base.pid)),
     CustomParam("tid_", IntText(base.tid))]
  }

  lemma ItemAdded(items: seq<string>, key: string, value: string)
    requires items != []
    ensures Join(items + [key + value]) == Join(items) + "," + key + value
  {
    JoinSnoc(items, key + value);
    hide Join;
    Regroup(Join(items) + ",", key, value);
    Regroup(Join(items), ",", key + value);
  }

  lemma PairParts(key: string, value: string)
    ensures PairText(CustomParam(key, value)) == (Quoted(key) + ":") + value
  {
  }

  lemma BaseKeys()
    ensures Quoted("domain_") + ":" == "\"domain_\":" && Quoted("name_") + ":" == "\"name_\":"
    ensures Quoted("type_") + ":" == "\"type_\":" && Quoted("time_") + ":" == "\"time_\":"
    ensures Quoted("tz_") + ":" == "\"tz_\":" && Quoted("pid_") + ":" == "\"pid_\":"
    ensures Quoted("tid_") + ":" == "\"tid_\":"
  {
  }

  /** The printed base is the seven members with commas in between. */
  lemma BaseJoined(base: Base)
    ensures base.Text() == Join(Texts(BaseMembers(base), PairText))
  {
    BaseKeys();
    var t0 := ["\"domain_\":" + Quoted(base.domain)];
    var t1 := t0 + ["\"name_\":" + Quoted(base.name)];
    var t2 := t1 + ["\"type_\":" + IntText(base.kind)];
    var t3 := t2 + ["\"time_\":" + IntText(base.time)];
    var t4 := t3 + ["\"tz_\":" + Quoted(base.timeZone)];
    var t5 := t4 + ["\"pid_\":" + IntText(base.pid)];
    var t6 := t5 + ["\"tid_\":" + IntText(base.tid)];
    assert t6 == Texts(BaseMembers(base), PairText) by {
      hide Quoted, IntText;
      forall i | 0 <= i < 7 {
        PairParts(BaseMembers(base)[i].key, BaseMembers(base)[i].value);
      }
    }
    JoinFew(t0[0]);
    hide Join, Quoted, IntText;
    ItemAdded(t0, "\"name_\":", Quoted(base.name));
    ItemAdded(t1, "\"type_\":", IntText(base.kind));
    ItemAdded(t2, "\"time_\":", IntText(base.time));
    ItemAdded(t3, "\"tz_\":", Quoted(base.timeZone));
    ItemAdded(t4, "\"pid_\":", IntText(base.pid));
    ItemAdded(t5, "\"tid_\":", IntText(base.tid));
  }

  /** A printed event is one printed object. */
  lemma EventIsObject(base: Base, params: seq<Param>)
    ensures EventText(base, params, "") == ObjectText(Texts(BaseMembers(base) + CustomParams(params), PairText))
  {
    var fixed, own := Texts(BaseMembers(base), PairText), Texts(CustomParams(params), PairText);
    BaseJoined(base);
    TextsConcat(BaseMembers(base), CustomParams(params), PairText);
    JoinConcat(fixed, own);
    assert own == MemberTexts(params);
    hide Join, PairText, Base.Text, BaseMembers;
    Regroup(Join(fixed), ",", Join(own));
    Regroup("{", Join(fixed), ParamsInfo(params, ""));
  }

  lemma {:induction false} PlainChars(s: string)
    requires forall i :: 0 <= i < |s| ==> s[i] >= ' ' && s[i] != '\"' && s[i] != '\\'
    ensures PlainInside(s)
  {
    if s != "" {
      PlainChars(s[1..]);
    }
  }

  lemma QuotedWhole(s: string)
    ensures WholeValue(Quoted(s)) <==> PlainInside(s)
  {
    hide ScanString, PlainInside;
    InsideScans(s, ",");
    var text := Quoted(s) + ",";
    assert text[0] == '\"' && text[1..] == s + "\"" + ",";
  }

  lemma NumberWhole(n: int)
    ensures WholeValue(IntText(n))
  {
    hide ScanValue;
    ValueScans(Number(n, Integer), ",");
  }

  lemma BaseGood(base: Base)
    ensures AllGood(BaseMembers(base)) <==>
              PlainInside(base.domain) && PlainInside(base.name) && PlainInside(base.timeZone)
  {
    FirstKeysPlain();
    OtherKeysPlain();
    hide PlainInside, WholeValue, IntText, Quoted;
    QuotedWhole(base.domain);
    QuotedWhole(base.name);
    QuotedWhole(base.timeZone);
    NumberWhole(base.kind);
    NumberWhole(base.time);
    NumberWhole(base.pid);
    NumberWhole(base.tid);
    SevenGood(BaseMembers(base));
  }

  lemma FirstKeysPlain()
    ensures PlainInside("domain_") && PlainInside("name_") && PlainInside("type_")
  {
    hide PlainInside;
    PlainChars("domain_");
    PlainChars("name_");
    PlainChars("type_");
  }

  lemma OtherKeysPlain()
    ensures PlainInside("time_") && PlainInside("tz_") && PlainInside("pid_") && PlainInside("tid_")
  {
    hide PlainInside;
    PlainChars("time_");
    PlainChars("tz_");
    PlainChars("pid_");
    PlainChars("tid_");
  }

  lemma SevenGood(pairs: seq<CustomParam>)
    requires |pairs| == 7
    ensures AllGood(pairs) <==>
              GoodPair(pairs[0]) && GoodPair(pairs[1]) && GoodPair(pairs[2]) && GoodPair(pairs[3]) &&
              GoodPair(pairs[4]) && GoodPair(pairs[5]) && GoodPair(pairs[6])
  {
    hide GoodPair;
  }

  lemma GrammaticalPlain(name: string, allowDollarSign: bool)
    requires EventVerify.Grammatical(name, allowDollarSign)
    ensures PlainInside(name)
  {
    forall i | 0 <= i < |name|
      ensures name[i] >= ' ' && name[i] != '\"' && name[i] != '\\'
    {
      assert i > 0 ==> name[i] == name[1..][i - 1] && name[i] in name[1..];
    }
    PlainChars(name);
  }

  lemma ParamsGood(params: seq<Param>)
    requires Verified(params)
    ensures AllGood(CustomParams(params)) <==> AllValuesSafe(params)
  {
    hide PlainInside, ScanValue, Safe, ValueText;
    forall i | 0 <= i < |params|
      ensures GoodPair(CustomParams(params)[i]) <==> Safe(params[i].value)
    {
      GrammaticalPlain(params[i].name, true);
      ValueScans(params[i].value, ",");
    }
  }

  /** The whole text of an event is read back as one object - its seven fixed members, its own names
      and values in order, nothing else - if and only if all values are safe and the three strings of
      the base, which are printed as they are, can stand inside a string literal. */
  lemma EventTextScans(base: Base, params: seq<Param>)
    requires Verified(params)
    ensures ScanObject(EventText(base, params, "")) == Scanned(BaseMembers(base) + CustomParams(params), "\n")
       <==> AllValuesSafe(params) &&
            PlainInside(base.domain) && PlainInside(base.name) && PlainInside(base.timeZone)
  {
    hide ScanObject, GoodPair, PlainInside, Safe, BaseMembers;
    EventIsObject(base, params);
    PairObjectScans(BaseMembers(base) + CustomParams(params));
    AllGoodConcat(BaseMembers(base), CustomParams(params));
    BaseGood(base);
    ParamsGood(params);
  }

  /** Domain and name of an event that passed verification always can. */
  lemma VerifiedNamesPlain(domain: string, name: string)
    requires EventVerify.ValidName(domain, EventVerify.MAX_LEN_OF_DOMAIN, false) && EventVerify.ValidEventName(name)
    ensures PlainInside(domain) && PlainInside(name)
  {
    GrammaticalPlain(domain, false);
    var prefix := EventVerify.EVENT_PREFIX;
    if prefix <= name {
      var rest := name[|prefix|..];
      assert rest != "" && forall i :: 0 < i < |rest| ==> rest[i] == rest[1..][i - 1] && rest[i] in rest[1..];
      assert name == prefix + rest;
      PlainChars(name);
    } else {
      GrammaticalPlain(name, true);
    }
  }

  /** So an event that passed verification prints as JSON if and only if its values are safe and its
      time zone can stand inside a string literal. */
  lemma VerifiedEventScans(base: Base, params: seq<Param>)
    requires EventVerify.ValidName(base.domain, EventVerify.MAX_LEN_OF_DOMAIN, false)
    requires EventVerify.ValidEventName(base.name)
    ensures var kept := EventVerify.First32(EventVerify.Surviving(params, |params|));
            ScanObject(EventText(base, kept, "")) == Scanned(BaseMembers(base) + CustomParams(kept), "\n")
            <==> AllValuesSafe(kept) && PlainInside(base.timeZone)
  {
    hide ScanObject, PlainInside, AllValuesSafe, BaseMembers, EventVerify.Surviving;
    VerificationVerifies(params);
    VerifiedNamesPlain(base.domain, base.name);
    EventTextScans(base, EventVerify.First32(EventVerify.Surviving(params, |params|)));
  }

  // ----- Events that pass verification and do not print as JSON -------------------------------------

  /** A single acceptable parameter passes verification; when its value, as it is stored, is not safe,
      it prints as text that is no object. */
  lemma PassesAndIsMalformed(p: Param)
    requires EventVerify.Acceptable(p) && EventVerify.ListSize(p.value) <= EventVerify.MAX_SIZE_OF_LIST_PARAM
    requires !Safe(EventVerify.Stored(p.value))
    ensures EventVerify.Verdict([p]) == EventVerify.VERIFY_SUCCESSFUL
    ensures var kept := EventVerify.First32(EventVerify.Surviving([p], 1));
            kept == [Param(p.name, EventVerify.Stored(p.value))] && ScanObject(ParamText(kept, "")) == Malformed
  {
    hide ScanObject, ParamText;
    EventVerify.SuccessMeansUntouched([p]);
    assert EventVerify.Spotless([p], 1) by {
      assert EventVerify.SpotlessAt([p], 0);
    }
    assert EventVerify.Kept([p], 0) && EventVerify.Surviving([p], 0) == [];
    VerificationVerifies([p]);
    var kept := EventVerify.First32(EventVerify.Surviving([p], 1));
    assert kept == [Param(p.name, EventVerify.Stored(p.value))];
    assert !AllValuesSafe(kept) by {
      assert !Safe(kept[0].value);
    }
    ParamTextScans(kept);
  }

  /** Two of them: a not-a-number, and a string with a control character that is not escaped. */
  lemma MalformedExamples()
    ensures var nan := [Param("a", Real(NotANumber(false), Double))];
            && EventVerify.Verdict(nan) == EventVerify.VERIFY_SUCCESSFUL
            && EventVerify.First32(EventVerify.Surviving(nan, 1)) == nan
            && ScanObject(ParamText(nan, "")) == Malformed
    ensures var control := [Param("a", Str("\U{1}"))];
            && EventVerify.Verdict(control) == EventVerify.VERIFY_SUCCESSFUL
            && EventVerify.First32(EventVerify.Surviving(control, 1)) == control
            && ScanObject(ParamText(control, "")) == Malformed
  {
    hide ScanObject, ParamText, EventVerify.Verdict, EventVerify.Surviving;
    assert EventVerify.Grammatical("a", true);
    PassesAndIsMalformed(Param("a", Real(NotANumber(false), Double)));
    EscapeFront("\U{1}");
    assert Escape("\U{1}") == "\U{1}" && !Clean("\U{1}");
    PassesAndIsMalformed(Param("a", Str("\U{1}")));
  }
}
