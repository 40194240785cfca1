/** Escaping of string values for JSON, and its inverse. */
module Escaping {
  import opened Wrappers
  import opened Sequences

  /** The letter that stands for `c` after a backslash, if `c` has to be escaped. */
  function Letter(c: char): Option<char> {
    match c
    case '\\' => Some('\\')
    case '\"' => Some('\"')
    case '\U{8}' => Some('b')
    case '\U{C}' => Some('f')
    case '\n' => Some('n')
    case '\r' => Some('r')
    case '\t' => Some('t')
    case _ => None
  }

  function EscapeChar(c: char): string {
    match Letter(c)
    case Some(letter) => ['\\', letter]
    case None => [c]
  }

  function Escape(s: string): string {
    if s == "" then "" else EscapeChar(s[0]) + Escape(s[1..])
  }

  function EscapeAll(ss: seq<string>): (r: seq<string>)
    ensures |r| == |ss|
    ensures forall i :: 0 <= i < |ss| ==> r[i] == Escape(ss[i])
  {
    if ss == [] then [] else EscapeAll(ss[..|ss| - 1]) + [Escape(ss[|ss| - 1])]
  }

  /** What a two-character escape sequence stands for (RFC 8259, section 7; the sequences with a
      solidus or four hexadecimal digits never occur in escaped text). */
  function Meaning(letter: char): Option<char> {
    match letter
    case '\\' => Some('\\')
    case '\"' => Some('\"')
    case 'b' => Some('\U{8}')
    case 'f' => Some('\U{C}')
    case 'n' => Some('\n')
    case 'r' => Some('\r')
    case 't' => Some('\t')
    case _ => None
  }

  /** The string that the inside of a JSON string literal denotes. */
  function Unescape(s: string): Option<string> {
    if s == "" then Some("")
    else if s[0] == '\"' then None
    else if s[0] == '\\' then
      if |s| < 2 || Meaning(s[1]).None? then None
      else match Unescape(s[2..])
           case None => None
           case Some(rest) => Some([Meaning(s[1]).value] + rest)
    else
      match Unescape(s[1..])
      case None => None
      case Some(rest) => Some([s[0]] + rest)
  }

  lemma {:induction false} EscapeRoundTrip(s: string)
    ensures Unescape(Escape(s)) == Some(s)
  {
    hide Unescape;
    if s == "" {
      UnescapeEmpty();
    } else {
      EscapeRoundTrip(s[1..]);
      UnescapeOne(s[0], Escape(s[1..]));
      assert s == [s[0]] + s[1..];
    }
  }

  lemma UnescapeEmpty()
    ensures Unescape("") == Some("")
  {
  }

  /** An escaped character in front is read back as that character. */
  lemma UnescapeOne(c: char, rest: string)
    ensures Unescape(EscapeChar(c) + rest) ==
              match Unescape(rest)
              case None => None
              case Some(tail) => Some([c] + tail)
  {
    var e := EscapeChar(c);
    assert (e + rest)[|e|..] == rest;
  }

  lemma EscapeFront(s: string)
    requires s != ""
    ensures Escape(s) == EscapeChar(s[0]) + Escape(s[1..])
  {
  }

  lemma {:induction false} EscapeDistributes(s: string, t: string)
    ensures Escape(s + t) == Escape(s) + Escape(t)
  {
    if s == "" {
      assert s + t == t;
    } else {
      hide Escape, EscapeChar;
      EscapeDistributes(s[1..], t);
      EscapeFront(s);
      EscapeFront(s + t);
      assert (s + t)[1..] == s[1..] + t;
      Regroup(EscapeChar(s[0]), Escape(s[1..]), Escape(t));
    }
  }

  lemma {:induction false} EscapeLength(s: string)
    ensures |s| <= |Escape(s)| <= 2 * |s|
    ensures |Escape(s)| == |s| <==> Escape(s) == s
  {
    if s != "" {
      EscapeLength(s[1..]);
      assert s == [s[0]] + s[1..];
    }
  }

  lemma EscapeOneMore(s: string, i: nat)
    requires i < |s|
    ensures Escape(s[..i + 1]) == Escape(s[..i]) + EscapeChar(s[i])
  {
    EscapeDistributes(s[..i], [s[i]]);
    assert s[..i + 1] == s[..i] + [s[i]];
    assert Escape([s[i]]) == EscapeChar(s[i]) + Escape([]);
  }

  /** One pass over the string, appending to a fresh one. */
  method EscapeStringValue(value: string) returns (escaped: string)
    ensures escaped == Escape(value)
  {
    escaped := "";
    var it := 0;
    while it < |value|
      invariant 0 <= it <= |value|
      invariant escaped == Escape(value[..it])
    {
      EscapeOneMore(value, it);
      var piece;
      match value[it] {
        case '\\' => piece := "\\\\";
        case '\"' => piece := "\\\"";
        case '\U{8}' => piece := "\\b";
        case '\U{C}' => piece := "\\f";
        case '\n' => piece := "\\n";
        case '\r' => piece := "\\r";
        case '\t' => piece := "\\t";
        case _ => piece := [value[it]];
      }
      escaped := escaped + piece;
      it := it + 1;
    }
    assert value[..it] == value;
  }
}
