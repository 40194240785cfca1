/** A scanner for JSON texts, written from RFC 8259 (sections 3 to 7) rather than from the printer,
    and what it recovers from a printed event. White space and the exponents of numbers are left
    out: the printer produces neither. */
module JsonScan {
  import opened Wrappers
  import opened EventTypes
  import opened Escaping
  import opened Decimal
  import opened EventJson
  import opened Sequences
  import EventVerify

  // ----- Grammar ----------------------------------------------------------------------------------

  predicate IsHex(c: char) {
    IsDigit(c) || 'a' <= c <= 'f' || 'A' <= c <= 'F'
  }

  predicate IsEscapeLetter(c: char) {
    c == '\"' || c == '\\' || c == '/' || c == 'b' || c == 'f' || c == 'n' || c == 'r' || c == 't'
  }

  /** The length of the escape sequence that `s`, starting with a backslash, begins with. */
  function EscapeSequence(s: string): Option<nat> {
    if |s| >= 2 && IsEscapeLetter(s[1]) then Some(2)
    else if |s| >= 6 && s[1] == 'u' && IsHex(s[2]) && IsHex(s[3]) && IsHex(s[4]) && IsHex(s[5]) then Some(6)
    else None
  }

  function Plus(n: nat, r: Option<nat>): Option<nat> {
    match r
    case None => None
    case Some(m) => Some(n + m)
  }

  /** How far a string literal reaches, counted from behind its opening quotation mark. */
  function ScanString(s: string): (r: Option<nat>)
    ensures r.Some? ==> r.value <= |s|
    decreases |s|
  {
    if s == "" || s[0] < ' ' then None
    else if s[0] == '\"' then Some(1)
    else if s[0] == '\\' then
      match EscapeSequence(s)
      case None => None
      case Some(n) => Plus(n, ScanString(s[n..]))
    else Plus(1, ScanString(s[1..]))
  }

  predicate IsDelimiter(c: char) {
    c == ',' || c == ':' || c == '[' || c == ']' || c == '{' || c == '}' || c == '\"'
  }

  /** The length of the leading run of characters that are not structural. */
  function BareLength(s: string): (n: nat)
    ensures n <= |s|
  {
    if s == "" || IsDelimiter(s[0]) then 0 else 1 + BareLength(s[1..])
  }

  /** The length of the leading run of digits. */
  function DigitCount(s: string): (n: nat)
    ensures n <= |s| && AllDigits(s[..n]) && (n < |s| ==> !IsDigit(s[n]))
  {
    if s == "" || !IsDigit(s[0]) then 0
    else
      var n := 1 + DigitCount(s[1..]);
      assert s[..n] == [s[0]] + s[1..][..n - 1];
      n
  }

  predicate IsFractionPart(s: string) {
    s == "" || (s[0] == '.' && |s| > 1 && AllDigits(s[1..]))
  }

  predicate IsUnsigned(s: string) {
    var n := DigitCount(s);
    n > 0 && (s[0] == '0' ==> n == 1) && IsFractionPart(s[n..])
  }

  predicate IsNumber(s: string) {
    IsUnsigned(if s != "" && s[0] == '-' then s[1..] else s)
  }

  predicate IsLiteral(s: string) {
    s == "true" || s == "false" || s == "null" || IsNumber(s)
  }

  /** How far a string, number or literal reaches. */
  function ScanScalar(s: string): (r: Option<nat>)
    ensures r.Some? ==> 0 < r.value <= |s|
  {
    if s != "" && s[0] == '\"' then Plus(1, ScanString(s[1..]))
    else
      var n := BareLength(s);
      if n > 0 && IsLiteral(s[..n]) then Some(n) else None
  }

  /** Members found, each as its name and the text of its value, and the text behind the object. */
  datatype Scanned = Malformed | Scanned(members: seq<CustomParam>, rest: string)

  function Prepend(member: CustomParam, r: Scanned): Scanned {
    match r
    case Malformed => Malformed
    case Scanned(members, rest) => Scanned([member] + members, rest)
  }

  /** How far a value reaches. */
  function ScanValue(s: string): (r: Option<nat>)
    ensures r.Some? ==> 0 < r.value <= |s|
    decreases |s|, 4
  {
    if s != "" && s[0] == '[' then
      if |s| > 1 && s[1] == ']' then Some(2) else Plus(1, ScanElements(s[1..]))
    else if s != "" && s[0] == '{' then
      match ScanObject(s)
      case Malformed => None
      case Scanned(_, rest) => if |rest| < |s| then Some(|s| - |rest|) else None
    else ScanScalar(s)
  }

  /** How far the elements of an array reach, its closing bracket included. */
  function ScanElements(s: string): (r: Option<nat>)
    ensures r.Some? ==> 0 < r.value <= |s|
    decreases |s|, 5
  {
    match ScanValue(s)
    case None => None
    case Some(n) =>
      if n == |s| then None
      else if s[n] == ']' then Some(n + 1)
      else if s[n] == ',' then Plus(n + 1, ScanElements(s[n + 1..]))
      else None
  }

  /** One member: its name, its value, and the length of its text. */
  function ScanMember(s: string): (r: Option<(CustomParam, nat)>)
    ensures r.Some? ==> 0 < r.value.1 <= |s|
    decreases |s|, 1
  {
    if s == "" || s[0] != '\"' then None else ScanMemberValue(s, ScanString(s[1..]))
  }

  /** The rest of a member whose name scan ended as `name` says. */
  function ScanMemberValue(s: string, name: Option<nat>): (r: Option<(CustomParam, nat)>)
    ensures r.Some? ==> 0 < r.value.1 <= |s|
    decreases |s|, 0
  {
    match name
    case None => None
    case Some(n) =>
      if n == 0 || n + 1 >= |s| || s[n + 1] != ':' then None
      else TakeMember(s, n, ScanValue(s[n + 2..]))
  }

  function TakeMember(s: string, n: nat, value: Option<nat>): Option<(CustomParam, nat)>
    requires 0 < n && n + 1 < |s| && (value.Some? ==> value.value <= |s| - (n + 2))
  {
    match value
    case None => None
    case Some(m) => Some((CustomParam(s[1..n], s[n + 2..n + 2 + m]), n + 2 + m))
  }

  function ScanMembers(s: string): Scanned
    decreases |s|, 2
  {
    match ScanMember(s)
    case None => Malformed
    case Some((member, n)) =>
      if n == |s| then Malformed
      else if s[n] == '}' then Scanned([member], s[n + 1..])
      else if s[n] == ',' then Prepend(member, ScanMembers(s[n + 1..]))
      else Malformed
  }

  function ScanObject(s: string): Scanned
    decreases |s|, 3
  {
    if s == "" || s[0] != '{' then Malformed
    else if |s| > 1 && s[1] == '}' then Scanned([], s[2..])
    else ScanMembers(s[1..])
  }

  // ----- Scalars ----------------------------------------------------------------------------------

  /** No character of `s` is a control character without an escape of its own. */
  predicate Printable(s: string) {
    forall i :: 0 <= i < |s| ==> PrintableChar(s[i])
  }

  predicate PrintableChar(c: char) {
    c >= ' ' || Letter(c).Some?
  }

  /** An escaped character in front is scanned over as a whole, a bare control character not at all. */
  lemma ScanOne(c: char, tail: string)
    ensures ScanString(EscapeChar(c) + tail) ==
              if PrintableChar(c) then Plus(|EscapeChar(c)|, ScanString(tail)) else None
  {
    var e := EscapeChar(c);
    var s := e + tail;
    assert s[0] == e[0] && s[|e|..] == tail;
    assert |e| == 2 ==> s[1] == e[1] && EscapeSequence(s) == Some(2);
  }

  lemma PrintableFront(s: string)
    requires s != ""
    ensures Printable(s) <==> PrintableChar(s[0]) && Printable(s[1..])
  {
    assert s == [s[0]] + s[1..];
  }

  /** The scan of an escaped string stops exactly at the quotation mark behind it, unless the string
      holds a control character that is not escaped. */
  lemma {:induction false} ScanEscaped(s: string, rest: string)
    ensures ScanString(Escape(s) + "\"" + rest) ==
              if Printable(s) then Some(|Escape(s)| + 1) else None
  {
    if s == "" {
      assert Escape(s) + "\"" + rest == "\"" + rest;
    } else {
      hide ScanString, Printable;
      ScanOne(s[0], Escape(s[1..]) + "\"" + rest);
      Regroup4(EscapeChar(s[0]), Escape(s[1..]), "\"", rest);
      ScanEscaped(s[1..], rest);
      PrintableFront(s);
    }
  }

  /** A text that can follow a value. */
  predicate Ends(rest: string) {
    rest != "" && (rest[0] == ',' || rest[0] == ']' || rest[0] == '}')
  }

  /** Scanning stops exactly behind `t` if `ok`, and fails if not. */
  predicate StopsBehind(t: string, ok: bool, r: Option<nat>) {
    r == if ok then Some(|t|) else None
  }

  lemma QuotedScans(s: string, rest: string)
    ensures StopsBehind(Quoted(Escape(s)), Printable(s), ScanScalar(Quoted(Escape(s)) + rest))
  {
    var text := Quoted(Escape(s)) + rest;
    ScanEscaped(s, rest);
    assert text[1..] == Escape(s) + "\"" + rest;
  }

  predicate Bare(t: string) {
    forall i :: 0 <= i < |t| ==> !IsDelimiter(t[i])
  }

  lemma BareParts(s: string, t: string)
    requires Bare(s) && Bare(t)
    ensures Bare(s + t)
  {
  }

  lemma {:induction false} BareRun(t: string, rest: string)
    requires Ends(rest) && Bare(t)
    ensures BareLength(t + rest) == |t|
  {
    if t == "" {
      assert t + rest == rest;
    } else {
      BareRun(t[1..], rest);
      assert (t + rest)[1..] == t[1..] + rest;
    }
  }

  lemma BareScans(t: string, rest: string)
    requires Ends(rest) && t != "" && Bare(t)
    ensures StopsBehind(t, IsLiteral(t), ScanScalar(t + rest))
  {
    BareRun(t, rest);
    assert (t + rest)[..|t|] == t;
    assert (t + rest)[0] == t[0];
  }

  lemma {:induction false} DigitRun(d: string, rest: string)
    requires AllDigits(d) && (rest != "" ==> !IsDigit(rest[0]))
    ensures DigitCount(d + rest) == |d|
  {
    if d == "" {
      assert d + rest == rest;
    } else {
      DigitRun(d[1..], rest);
      assert (d + rest)[1..] == d[1..] + rest;
    }
  }

  lemma UnsignedText(whole: nat, tail: string)
    requires IsFractionPart(tail)
    ensures IsUnsigned(NatText(whole) + tail)
  {
    NatRoundTrip(whole);
    DigitRun(NatText(whole), tail);
    assert (NatText(whole) + tail)[|NatText(whole)|..] == tail;
  }

  lemma SignedText(negative: bool, digits: string)
    requires digits != "" && digits[0] != '-'
    ensures IsNumber(Sign(negative) + digits) <==> IsUnsigned(digits)
  {
    var t := Sign(negative) + digits;
    assert (if t[0] == '-' then t[1..] else t) == digits;
  }

  lemma NumberText(negative: bool, whole: nat, fraction: string)
    requires AllDigits(fraction)
    ensures IsNumber(Sign(negative) + NatText(whole) + if fraction == "" then "" else "." + fraction)
  {
    var tail := if fraction == "" then "" else "." + fraction;
    if fraction != "" {
      assert tail[1..] == fraction;
    }
    UnsignedText(whole, tail);
    var n := NatText(whole);
    assert (n + tail)[0] == n[0];
    SignedText(negative, n + tail);
    Regroup(Sign(negative), n, tail);
  }

  lemma IntIsNumber(n: int)
    ensures IsNumber(IntText(n))
    ensures forall i :: 0 <= i < |IntText(n)| ==> IntText(n)[i] == '-' || IsDigit(IntText(n)[i])
  {
    var negative, whole := n < 0, if n < 0 then -n else n;
    NumberText(negative, whole, "");
    assert IntText(n) == Sign(negative) + NatText(whole) + "";
  }

  lemma NonFiniteText(f: Float, word: string)
    requires !f.Finite? && word == if f.Infinite? then "inf" else "nan"
    ensures RealText(f) == Sign(f.negative) + word
  {
    var t := Sign(f.negative) + word;
    assert t[|t| - 1] == word[2];
  }

  lemma WordIsNoNumber(negative: bool, word: string)
    requires word == "inf" || word == "nan"
    ensures !IsLiteral(Sign(negative) + word)
  {
    SignedText(negative, word);
    assert DigitCount(word) == 0;
    var t := Sign(negative) + word;
    assert t[|t| - 1] == word[2] && t[|t| - 3] == word[0];
    assert "true"[3] == 'e' && "false"[4] == 'e' && "null"[3] == 'l';
  }

  lemma NumberBare(negative: bool, whole: nat, fraction: string)
    requires AllDigits(fraction)
    ensures Bare(Sign(negative) + NatText(whole) + if fraction == "" then "" else "." + fraction)
  {
    BareParts(Sign(negative), NatText(whole));
    if fraction != "" {
      BareParts(".", fraction);
      BareParts(Sign(negative) + NatText(whole), "." + fraction);
    }
  }

  lemma RealBare(f: Float)
    ensures RealText(f) != "" && Bare(RealText(f))
  {
    match f
    case Finite(negative, whole, micros) =>
      var fraction := TrimKeepsValue(negative, whole, micros);
      NumberBare(negative, whole, fraction);
    case Infinite(negative) =>
      NonFiniteText(f, "inf");
      BareParts(Sign(negative), "inf");
    case NotANumber(negative) =>
      NonFiniteText(f, "nan");
      BareParts(Sign(negative), "nan");
  }

  lemma RealLiteral(f: Float)
    ensures IsLiteral(RealText(f)) <==> f.Finite?
  {
    match f
    case Finite(negative, whole, micros) =>
      var fraction := TrimKeepsValue(negative, whole, micros);
      NumberText(negative, whole, fraction);
    case Infinite(negative) =>
      NonFiniteText(f, "inf");
      WordIsNoNumber(negative, "inf");
    case NotANumber(negative) =>
      NonFiniteText(f, "nan");
      WordIsNoNumber(negative, "nan");
  }

  lemma RealScans(f: Float, rest: string)
    requires Ends(rest)
    ensures StopsBehind(RealText(f), f.Finite?, ScanScalar(RealText(f) + rest))
  {
    RealBare(f);
    RealLiteral(f);
    BareScans(RealText(f), rest);
  }

  lemma {:induction false} PlainEscape(s: string)
    requires forall i :: 0 <= i < |s| ==> s[i] >= ' ' && Letter(s[i]).None?
    ensures Escape(s) == s && Printable(s)
  {
    if s != "" {
      PlainEscape(s[1..]);
    }
  }

  // ----- Values -----------------------------------------------------------------------------------

  /** The image of some string under escaping, as verification leaves strings behind. */
  ghost predicate IsEscaped(s: string) {
    exists original :: s == Escape(original)
  }

  ghost predicate StringsEscaped(v: Value) {
    match v
    case Str(s) => IsEscaped(s)
    case Strs(ss) => forall s :: s in ss ==> IsEscaped(s)
    case _ => true
  }

  /** No raw control character in a string, and no infinity or not-a-number. */
  predicate Clean(s: string) {
    forall i :: 0 <= i < |s| ==> s[i] >= ' '
  }

  predicate Safe(v: Value) {
    match v
    case Real(f, _) => f.Finite?
    case Reals(fs, _) => forall f :: f in fs ==> f.Finite?
    case Str(s) => Clean(s)
    case Strs(ss) => forall s :: s in ss ==> Clean(s)
    case _ => true
  }

  lemma CharClean(c: char)
    ensures Clean(EscapeChar(c)) <==> PrintableChar(c)
  {
    var e := EscapeChar(c);
    assert |e| == 1 ==> e[0] == c;
  }

  lemma {:induction false} EscapeClean(s: string)
    ensures Clean(Escape(s)) <==> Printable(s)
  {
    if s != "" {
      EscapeClean(s[1..]);
      var c, tail := EscapeChar(s[0]), Escape(s[1..]);
      assert Clean(c + tail) <==> Clean(c) && Clean(tail) by {
        assert forall i :: 0 <= i < |tail| ==> (c + tail)[|c| + i] == tail[i];
        assert forall i :: 0 <= i < |c| ==> (c + tail)[i] == c[i];
      }
      PrintableFront(s);
      CharClean(s[0]);
    }
  }

  /** A printed scalar never starts like a list or an object, nor like the end of a list. */
  lemma ScalarStart(v: Value)
    requires !IsList(v)
    ensures ScalarText(v) != "" && ScalarText(v)[0] != '[' && ScalarText(v)[0] != ']' && ScalarText(v)[0] != '{'
  {
    match v
    case Number(n, _) => IntIsNumber(n);
    case Real(f, _) => RealBare(f);
    case _ =>
  }

  lemma ScalarAlone(t: string, rest: string)
    requires t != "" && t[0] != '[' && t[0] != '{'
    ensures ScanValue(t + rest) == ScanScalar(t + rest)
  {
    assert (t + rest)[0] == t[0];
  }

  lemma ScalarScans(v: Value, rest: string)
    requires !IsList(v) && StringsEscaped(v) && Ends(rest)
    ensures StopsBehind(ScalarText(v), Safe(v), ScanValue(ScalarText(v) + rest))
  {
    hide ScanValue, ScanScalar, Escape;
    ScalarStart(v);
    ScalarAlone(ScalarText(v), rest);
    match v
    case Empty =>
      EscapeNothing();
      QuotedScans("", rest);
    case Bool(b) => BareScans(BoolText(b), rest);
    case Char(c) => CharScans(c, rest);
    case Number(n, _) =>
      IntIsNumber(n);
      BareScans(IntText(n), rest);
    case Real(f, _) => RealScans(f, rest);
    case Str(s) => StrScans(s, rest);
  }

  lemma EscapeNothing()
    ensures Escape("") == "" && Quoted("") == "\"\""
  {
  }

  lemma CharScans(c: int, rest: string)
    ensures StopsBehind(CharText(c), true, ScanScalar(CharText(c) + rest))
  {
    hide ScanScalar;
    IntIsNumber(c);
    PlainEscape(IntText(c));
    QuotedScans(IntText(c), rest);
  }

  lemma StrScans(s: string, rest: string)
    requires IsEscaped(s)
    ensures StopsBehind(Quoted(s), Clean(s), ScanScalar(Quoted(s) + rest))
  {
    hide ScanScalar;
    var original :| s == Escape(original);
    EscapeClean(original);
    QuotedScans(original, rest);
  }

  // ----- Lists ------------------------------------------------------------------------------------

  /** The elements of a list value as values of their own. */
  function Scalars(v: Value): (vs: seq<Value>)
    requires IsList(v)
    ensures forall i :: 0 <= i < |vs| ==> !IsList(vs[i])
  {
    match v
    case Bools(bs) => seq(|bs|, i requires 0 <= i < |bs| => Bool(bs[i]))
    case Chars(cs) => seq(|cs|, i requires 0 <= i < |cs| => Char(cs[i]))
    case Numbers(ns, width) => seq(|ns|, i requires 0 <= i < |ns| => Number(ns[i], width))
    case Reals(fs, precision) => seq(|fs|, i requires 0 <= i < |fs| => Real(fs[i], precision))
    case Strs(ss) => seq(|ss|, i requires 0 <= i < |ss| => Str(ss[i]))
  }

  function Print(v: Value): string {
    if IsList(v) then "" else ScalarText(v)
  }

  lemma ElementsAreScalars(v: Value)
    requires IsList(v)
    ensures Elements(v) == Texts(Scalars(v), Print)
  {
    hide BoolText, CharText, IntText, RealText, Quoted;
    var vs := Scalars(v);
    assert |Elements(v)| == |vs|;
    assert forall i :: 0 <= i < |vs| ==> Elements(v)[i] == Print(vs[i]);
  }

  lemma ScalarsKeepSafety(v: Value)
    requires IsList(v)
    ensures Safe(v) <==> AllSafe(Scalars(v))
    ensures StringsEscaped(v) ==> ScalarsEscaped(Scalars(v))
  {
    hide Clean, IsEscaped;
    var vs := Scalars(v);
    match v {
      case Reals(fs, _) => assert forall i :: 0 <= i < |vs| ==> (Safe(vs[i]) <==> fs[i].Finite?);
      case Strs(ss) => assert forall i :: 0 <= i < |vs| ==> (Safe(vs[i]) <==> Clean(ss[i]));
      case _ =>
    }
  }

  lemma JoinFew(item: string)
    ensures Join([]) == "" && Join([item]) == item
  {
  }

  /** Joined text, taken apart at its first item. */
  lemma JoinFront(items: seq<string>)
    requires |items| >= 1
    ensures Join(items) == items[0] + if |items| == 1 then "" else "," + Join(items[1..])
  {
    hide Join;
    JoinFew(items[0]);
    JoinConcat([items[0]], items[1..]);
    assert items == [items[0]] + items[1..];
    if |items| == 1 {
      assert items[1..] == [];
    } else {
      Regroup(items[0], ",", Join(items[1..]));
    }
  }

  ghost predicate AllSafe(vs: seq<Value>) {
    forall i :: 0 <= i < |vs| ==> Safe(vs[i])
  }

  ghost predicate ScalarsEscaped(vs: seq<Value>) {
    forall i :: 0 <= i < |vs| ==> !IsList(vs[i]) && StringsEscaped(vs[i])
  }

  function ElementsText(vs: seq<Value>): string {
    Join(Texts(vs, Print)) + "]"
  }

  /** The elements of a list, taken apart at the first one. */
  lemma ElementsFront(vs: seq<Value>, rest: string)
    requires vs != [] && !IsList(vs[0])
    ensures ElementsText(vs) + rest == ScalarText(vs[0]) +
              if |vs| == 1 then "]" + rest else "," + (ElementsText(vs[1..]) + rest)
    ensures |ElementsText(vs)| == |ScalarText(vs[0])| + if |vs| == 1 then 1 else 1 + |ElementsText(vs[1..])|
  {
    var texts := Texts(vs, Print);
    JoinFront(texts);
    if |vs| > 1 {
      assert texts[1..] == Texts(vs[1..], Print);
    }
  }

  /** One step of the element scan, past an element and the character behind it. */
  lemma ElementStep(head: string, ok: bool, after: string)
    requires after != "" && StopsBehind(head, ok, ScanValue(head + after))
    ensures ScanElements(head + after) ==
              if !ok then None
              else if after[0] == ']' then Some(|head| + 1)
              else if after[0] == ',' then Plus(|head| + 1, ScanElements(after[1..]))
              else None
  {
    var text := head + after;
    assert text[|head|] == after[0] && text[|head| + 1..] == after[1..];
  }

  lemma {:induction false} ElementsScan(vs: seq<Value>, rest: string)
    requires vs != [] && ScalarsEscaped(vs)
    ensures StopsBehind(ElementsText(vs), AllSafe(vs), ScanElements(ElementsText(vs) + rest))
  {
    hide ScanElements, ScanValue;
    hide ElementsText, ScalarText, Safe, StringsEscaped;
    ElementsFront(vs, rest);
    var head := ScalarText(vs[0]);
    if |vs| == 1 {
      ScalarScans(vs[0], "]" + rest);
      ElementStep(head, Safe(vs[0]), "]" + rest);
    } else {
      var after := ElementsText(vs[1..]) + rest;
      ScalarScans(vs[0], "," + after);
      ElementStep(head, Safe(vs[0]), "," + after);
      assert ("," + after)[1..] == after;
      ElementsScan(vs[1..], rest);
      assert AllSafe(vs) <==> Safe(vs[0]) && AllSafe(vs[1..]);
    }
  }

  /** A list is its opening bracket and the scan of what follows. */
  lemma ListStep(inside: string, rest: string)
    requires inside != "" && inside[0] != ']'
    ensures ScanValue("[" + inside + rest) == Plus(1, ScanElements(inside + rest))
  {
    var text := "[" + inside + rest;
    assert text[1..] == inside + rest;
    assert text[1] == inside[0];
  }

  lemma EmptyListScans(rest: string)
    ensures ScanValue("[]" + rest) == Some(2)
  {
    var text := "[]" + rest;
    assert text[0] == '[' && text[1] == ']';
  }

  lemma ListTextOf(v: Value, vs: seq<Value>)
    requires IsList(v) && Elements(v) == Texts(vs, Print)
    ensures ValueText(v) == "[" + ElementsText(vs)
    ensures vs == [] ==> ValueText(v) == "[]"
  {
  }

  lemma ElementsStart(vs: seq<Value>)
    requires vs != [] && !IsList(vs[0])
    ensures ElementsText(vs) != "" && ElementsText(vs)[0] != ']'
  {
    JoinFront(Texts(vs, Print));
    ScalarStart(vs[0]);
    assert ElementsText(vs)[0] == ScalarText(vs[0])[0];
  }

  lemma ListScans(v: Value, rest: string)
    requires IsList(v) && StringsEscaped(v)
    ensures StopsBehind(ValueText(v), Safe(v), ScanValue(ValueText(v) + rest))
  {
    hide Safe, StringsEscaped, Scalars, ElementsText, ValueText;
    ElementsAreScalars(v);
    ScalarsKeepSafety(v);
    var vs := Scalars(v);
    ListTextOf(v, vs);
    if vs == [] {
      EmptyListScans(rest);
    } else {
      ElementsScan(vs, rest);
      ElementsStart(vs);
      ListStep(ElementsText(vs), rest);
    }
  }

  lemma ValueScans(v: Value, rest: string)
    requires StringsEscaped(v) && Ends(rest)
    ensures StopsBehind(ValueText(v), Safe(v), ScanValue(ValueText(v) + rest))
  {
    if IsList(v) {
      ListScans(v, rest);
    } else {
      ScalarScans(v, rest);
    }
  }

  // ----- Objects ----------------------------------------------------------------------------------

  /** Nothing in a grammatical name needs escaping. */
  lemma NamePlain(name: string)
    requires EventVerify.Grammatical(name, true)
    ensures Escape(name) == name && Printable(name)
  {
    forall i | 0 <= i < |name|
      ensures name[i] >= ' ' && Letter(name[i]).None?
    {
      if i > 0 {
        assert name[i] == name[1..][i - 1] && name[i] in name[1..];
      }
    }
    PlainEscape(name);
  }

  function MemberOf(p: Param): CustomParam {
    CustomParam(p.name, ValueText(p.value))
  }

  lemma MemberShape(name: string, value: string, rest: string)
    ensures var s, n := Quoted(name) + ":" + value + rest, |name| + 1;
            && n + 1 < |s| && s[0] == '\"' && s[n + 1] == ':'
            && s[1..] == name + "\"" + (":" + value + rest)
            && s[1..n] == name && s[n + 2..] == value + rest
            && s[n + 2..n + 2 + |value|] == value
  {
  }

  lemma MemberScans(p: Param, rest: string)
    requires EventVerify.Grammatical(p.name, true) && StringsEscaped(p.value) && Ends(rest)
    ensures ScanMember(MemberText(p) + rest) ==
              if Safe(p.value) then Some((MemberOf(p), |MemberText(p)|)) else None
  {
    hide ScanString, ScanValue, Escape, Printable, ValueText, Safe, StringsEscaped;
    var name, value := p.name, ValueText(p.value);
    var s, behind := Quoted(name) + ":" + value + rest, ":" + value + rest;
    MemberShape(name, value, rest);
    assert ScanString(s[1..]) == Some(|name| + 1) by {
      NamePlain(name);
      ScanEscaped(name, behind);
    }
    ValueScans(p.value, rest);
    assert ScanMember(s) == ScanMemberValue(s, Some(|name| + 1));
  }

  /** One step of the member scan, past a member and the character behind it. */
  lemma MembersStep(head: string, member: CustomParam, ok: bool, after: string)
    requires after != "" && ScanMember(head + after) == if ok then Some((member, |head|)) else None
    ensures ScanMembers(head + after) ==
              if !ok then Malformed
              else if after[0] == '}' then Scanned([member], after[1..])
              else if after[0] == ',' then Prepend(member, ScanMembers(after[1..]))
              else Malformed
  {
    var text := head + after;
    assert text[|head|] == after[0] && text[|head| + 1..] == after[1..];
  }

  function MembersText(params: seq<Param>): string {
    Join(MemberTexts(params)) + "}"
  }

  lemma RegroupMembers(head: string, tail: string, rest: string)
    ensures head + ("," + tail) + "}" + rest == head + ("," + (tail + "}" + rest))
  {
  }

  /** The members of an object, taken apart at the first one. */
  lemma MembersFront(params: seq<Param>, rest: string)
    requires params != []
    ensures MembersText(params) + rest == MemberText(params[0]) +
              if |params| == 1 then "}" + rest else "," + (MembersText(params[1..]) + rest)
  {
    var texts := MemberTexts(params);
    JoinFront(texts);
    if |params| == 1 {
      Regroup(texts[0], "}", rest);
    } else {
      assert texts[1..] == MemberTexts(params[1..]);
      RegroupMembers(texts[0], Join(texts[1..]), rest);
    }
  }

  /** Parameters as verification leaves them: grammatical names, escaped strings. */
  ghost predicate Verified(params: seq<Param>) {
    forall i :: 0 <= i < |params| ==>
      EventVerify.Grammatical(params[i].name, true) && StringsEscaped(params[i].value)
  }

  ghost predicate AllValuesSafe(params: seq<Param>) {
    forall i :: 0 <= i < |params| ==> Safe(params[i].value)
  }

  lemma MemberThen(p: Param, after: string)
    requires EventVerify.Grammatical(p.name, true) && StringsEscaped(p.value) && Ends(after)
    ensures ScanMembers(MemberText(p) + after) ==
              if !Safe(p.value) then Malformed
              else if after[0] == '}' then Scanned([MemberOf(p)], after[1..])
              else if after[0] == ',' then Prepend(MemberOf(p), ScanMembers(after[1..]))
              else Malformed
  {
    MemberScans(p, after);
    MembersStep(MemberText(p), MemberOf(p), Safe(p.value), after);
  }

  lemma {:induction false} MembersScan(params: seq<Param>, rest: string)
    requires params != [] && Verified(params)
    ensures ScanMembers(MembersText(params) + rest) ==
              if AllValuesSafe(params) then Scanned(CustomParams(params), rest) else Malformed
  {
    hide ScanMembers, MembersText, MemberText, Safe, StringsEscaped;
    var p := params[0];
    MembersFront(params, rest);
    if |params| == 1 {
      MemberThen(p, "}" + rest);
      assert ("}" + rest)[1..] == rest;
      SafeFront(params);
    } else {
      var after := MembersText(params[1..]) + rest;
      MemberThen(p, "," + after);
      assert ("," + after)[1..] == after;
      MembersScan(params[1..], rest);
      SafeFront(params);
    }
  }

  lemma SafeFront(params: seq<Param>)
    requires params != []
    ensures AllValuesSafe(params) <==> Safe(params[0].value) && AllValuesSafe(params[1..])
    ensures CustomParams(params) == [MemberOf(params[0])] + CustomParams(params[1..])
  {
    hide Safe, ValueText;
  }

  /** The parameter text of a verified event is a JSON object - with exactly the event's names and
      values, in order, and nothing but a line break behind it - unless a value holds an infinity, a
      not-a-number, or a control character that has no escape of its own; then it is none. */
  lemma ParamTextScans(params: seq<Param>)
    requires Verified(params)
    ensures ScanObject(ParamText(params, "")) ==
              if AllValuesSafe(params) then Scanned(CustomParams(params), "\n") else Malformed
  {
    hide ScanObject, ScanMembers;
    if params == [] {
      EmptyObjectScans();
    } else {
      var text, inside := ParamText(params, ""), MembersText(params) + "\n";
      ObjectShape(params);
      MembersScan(params, "\n");
      ObjectStep(text, inside);
    }
  }

  lemma EmptyObjectScans()
    ensures ParamText([], "") == "{}\n" && ScanObject("{}\n") == Scanned([], "\n")
  {
    assert "{}\n"[2..] == "\n";
  }

  lemma BraceShape(joined: string, head: string)
    requires head != "" && head <= joined
    ensures var text := "{" + joined + "}\n";
            text[0] == '{' && text[1] == head[0] && text[1..] == joined + "}" + "\n"
  {
  }

  /** Printed members stand between an opening brace and a line break, and start with a name. */
  lemma ObjectShape(params: seq<Param>)
    requires params != []
    ensures var text := ParamText(params, "");
            |text| > 1 && text[0] == '{' && text[1] == '\"' && text[1..] == MembersText(params) + "\n"
  {
    hide Join, ValueText;
    JoinFront(MemberTexts(params));
    BraceShape(Join(MemberTexts(params)), MemberText(params[0]));
  }

  /** An object is its opening brace and the scan of what follows. */
  lemma ObjectStep(text: string, inside: string)
    requires |text| > 1 && text[0] == '{' && text[1] != '}' && text[1..] == inside
    ensures ScanObject(text) == ScanMembers(inside)
  {
    hide ScanMembers;
  }

  /** What `VerifyAppEvent` leaves in an event is verified in the sense above, and its names differ. */
  lemma VerificationVerifies(params: seq<Param>)
    ensures var kept := EventVerify.First32(EventVerify.Surviving(params, |params|));
            Verified(kept) && EventVerify.DistinctNames(kept)
  {
    var all := EventVerify.Surviving(params, |params|);
    EventVerify.SurvivorsDistinct(params, |params|);
    forall k | 0 <= k < |all|
      ensures StringsEscaped(all[k].value)
    {
      var i := EventVerify.Origin(params, |params|, k);
      StoredIsEscaped(params[i].value);
    }
    assert forall k :: 0 <= k < |all| ==> all[k] in all;
  }

  lemma StoredIsEscaped(v: Value)
    ensures StringsEscaped(EventVerify.Stored(v))
  {
    match v
    case Str(s) => assert IsEscaped(Escape(s));
    case Strs(ss) =>
      var all := EscapeAll(ss);
      forall s | s in EventVerify.First100(all)
        ensures IsEscaped(s)
      {
        var i :| 0 <= i < |all| && all[i] == s;
        assert s == Escape(ss[i]);
      }
    case _ =>
  }
}
