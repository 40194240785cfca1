/** The search for a name in a list of extensions separated by spaces, by one pointer moving over the
    text, against the split of the text at its spaces. */
module EglExtension {

  const SPACE := ' '

  /** How far `s` goes without a space. */
  function Span(s: string): (n: nat)
    ensures n <= |s| && SPACE !in s[..n] && (n < |s| ==> s[n] == SPACE)
  {
    if s == "" || s[0] == SPACE then 0 else 1 + Span(s[1..])
  }

  /** The pieces of `s` between its spaces, empty ones included. */
  function Split(s: string): (pieces: seq<string>)
    ensures pieces != []
    decreases |s|
  {
    var n := Span(s);
    if n == |s| then [s] else [s[..n]] + Split(s[n + 1..])
  }

  /** The pieces joined with spaces. */
  function Join(pieces: seq<string>): string
    requires pieces != []
  {
    if |pieces| == 1 then pieces[0] else pieces[0] + [SPACE] + Join(pieces[1..])
  }

  /** Splitting loses nothing, and leaves no space in any piece: it is the one such list. */
  lemma {:induction false} SplitJoins(s: string)
    ensures Join(Split(s)) == s
    ensures forall piece :: piece in Split(s) ==> SPACE !in piece
    decreases |s|
  {
    var n := Span(s);
    if n < |s| {
      SplitJoins(s[n + 1..]);
      assert Split(s)[1..] == Split(s[n + 1..]);
      assert s == s[..n] + [SPACE] + s[n + 1..];
    } else {
      assert s[..n] == s;
    }
  }

  /** `name` stands at i, with a space or an end of the text on either side. */
  predicate StandsAt(s: string, name: string, i: int) {
    && 0 <= i <= |s| - |name| && s[i..i + |name|] == name
    && (i == 0 || s[i - 1] == SPACE)
    && (i + |name| == |s| || s[i + |name|] == SPACE)
  }

  ghost predicate Stands(s: string, name: string) {
    exists i :: StandsAt(s, name, i)
  }

  /** The wanted names: those that are a piece and not empty. */
  predicate Listed(s: string, name: string) {
    name != "" && name in Split(s)
  }

  /** A name is listed exactly where it stands by itself somewhere and has no space inside. */
  lemma {:induction false} ListedStands(s: string, name: string)
    ensures Listed(s, name) <==> name != "" && SPACE !in name && Stands(s, name)
    decreases |s|
  {
    var n := Span(s);
    if name != "" && SPACE !in name {
      if n == |s| {
        assert s[..n] == s;
        WholeStands(s, name);
      } else {
        ListedStands(s[n + 1..], name);
        SplitStands(s, name, n);
      }
    } else if name != "" && name in Split(s) {
      SplitJoins(s);
    }
  }

  /** In a text without a space only the whole text stands by itself. */
  lemma WholeStands(s: string, name: string)
    requires SPACE !in s && name != ""
    ensures Stands(s, name) <==> name == s
  {
    if name == s {
      assert s[0..0 + |name|] == name;
      assert StandsAt(s, name, 0);
    }
    if i :| StandsAt(s, name, i) {
      assert i == 0 && i + |name| == |s|;
      assert s[0..|s|] == s;
    }
  }

  /** Otherwise the first piece does, and what stands behind the first space. */
  lemma SplitStands(s: string, name: string, n: nat)
    requires n < |s| && SPACE !in s[..n] && s[n] == SPACE && name != "" && SPACE !in name
    ensures Stands(s, name) <==> name == s[..n] || Stands(s[n + 1..], name)
  {
    var rest := s[n + 1..];
    if name == s[..n] {
      assert StandsAt(s, name, 0);
    }
    if i :| StandsAt(rest, name, i) {
      assert s[i + n + 1..i + n + 1 + |name|] == rest[i..i + |name|];
      assert StandsAt(s, name, i + n + 1);
    }
    if i :| StandsAt(s, name, i) {
      StandsBefore(s, name, n, i);
      if i > n {
        assert rest[i - n - 1..i - n - 1 + |name|] == s[i..i + |name|];
        assert StandsAt(rest, name, i - n - 1);
      }
    }
  }

  lemma SpaceInside(s: string, name: string, n: nat, i: nat)
    requires i <= n < i + |name| <= |s| && s[n] == SPACE && s[i..i + |name|] == name
    ensures SPACE in name
  {
    assert name[n - i] == s[n];
  }

  /** What stands before the space at n is all that is before it. */
  lemma StandsBefore(s: string, name: string, n: nat, i: int)
    requires n < |s| && SPACE !in s[..n] && s[n] == SPACE && name != "" && SPACE !in name && StandsAt(s, name, i)
    ensures i != n && (i < n ==> name == s[..n])
  {
    if i <= n < i + |name| {
      SpaceInside(s, name, n, i);
    }
    assert forall k :: 0 <= k < n ==> s[k] == s[..n][k];
    if i < n {
      assert i + |name| <= n;
      assert i == 0 && i + |name| == n;
    }
  }

  /** One step of the pointer changes nothing about what is listed: over a space, */
  lemma PastSpace(s: string, name: string)
    requires s != "" && s[0] == SPACE
    ensures Listed(s, name) <==> Listed(s[1..], name)
  {
    assert s[..0] == "" && Split(s) == [""] + Split(s[1..]);
  }

  /** or over a piece that is not the name. */
  lemma PastPiece(s: string, name: string)
    requires Span(s) > 0
    ensures Listed(s, name) <==> name == s[..Span(s)] || Listed(s[Span(s)..], name)
  {
    var n := Span(s);
    if n == |s| {
      assert s[..n] == s && s[n..] == "" && Split("") == [""];
    } else {
      PastSpace(s[n..], name);
      assert s[n..][1..] == s[n + 1..];
    }
  }

  lemma NothingListed(name: string)
    ensures !Listed("", name)
  {
    assert Split("") == [""];
  }

  /** True exactly for the names in the list: never for a part of one, for nothing, or across a space. */
  method CheckEglExtension(extensions: string, extension: string) returns (found: bool)
    ensures found <==> Listed(extensions, extension)
  {
    hide Listed, Split;
    var i := 0;
    ghost var rest := extensions;
    while i < |extensions|
      invariant 0 <= i <= |extensions| && rest == extensions[i..]
      invariant Listed(extensions, extension) <==> Listed(rest, extension)
      decreases |extensions| - i
    {
      if extensions[i] == SPACE {
        PastSpace(rest, extension);
        i, rest := i + 1, rest[1..];
        continue;
      }
      var n := Span(extensions[i..]);
      PastPiece(rest, extension);
      if n == |extension| && extension[..n] == extensions[i..i + n] {
        return true;
      }
      i, rest := i + n, rest[n..];
    }
    NothingListed(extension);
    return false;
  }
}
