/** The bounded formatting back end of hilog: a counted stream over a caller's buffer, the two
    write routines the format interpreter calls, and the entry point that decides between a full
    result, a truncated one and an empty one. */
module BoundedPrintf {
  import opened Wrappers
  import opened Sequences

  const EOF := -1
  const NUL: char := '\0'
  const STRING_MAX_LEN := 0x7fffffff
  /** `(size_t)(-1)` with 64-bit sizes. */
  const SIZE_MAX := 0xffff_ffff_ffff_ffff
  const PRINTF_TRUNCATE := -2

  /** What the format interpreter asks for: a piece of text, or one character `num` times. */
  datatype Write =
    | Text(text: seq<char>)
    | Repeat(ch: char, num: int)

  /** A format string with its arguments, as the writes it leads to; `malformed` when the
      interpreter then gives up with an error. */
  datatype Format = Format(writes: seq<Write>, malformed: bool)

  function Repeated(ch: char, num: int): (s: seq<char>)
    ensures |s| == if num > 0 then num else 0
    ensures forall i :: 0 <= i < |s| ==> s[i] == ch
  {
    if num <= 0 then [] else Repeated(ch, num - 1) + [ch]
  }

  function Produced(w: Write): seq<char> {
    match w
    case Text(text) => text
    case Repeat(ch, num) => Repeated(ch, num)
  }

  /** All text produced by a list of writes. */
  function Output(writes: seq<Write>): seq<char> {
    if writes == [] then [] else Output(writes[..|writes| - 1]) + Produced(writes[|writes| - 1])
  }

  /** The first `n` characters of `s`, or all of it. */
  function Take(s: seq<char>, n: int): seq<char> {
    if n < 0 then [] else if |s| <= n then s else s[..n]
  }

  /** `base` with `s` laid over its beginning. */
  function Overlay(base: seq<char>, s: seq<char>): seq<char>
    requires |s| <= |base|
  {
    s + base[|s|..]
  }

  /** The stream: `count` places are left, `cur` is the next one. */
  class PrintfStream {
    var count: int
    var cur: nat
    const buffer: array<char>

    constructor (buffer: array<char>, count: nat)
      requires count <= buffer.Length
      ensures this.buffer == buffer && this.count == count && cur == 0
    {
      this.buffer, this.count, this.cur := buffer, count, 0;
    }

    ghost predicate Valid()
      reads this
    {
      cur + (if count < 0 then 0 else count) <= buffer.Length
    }

    /** Put one character, or report EOF once no place is left. */
    method Putc(c: char) returns (r: int)
      requires Valid()
      modifies this`count, this`cur, buffer
      ensures Valid() && count == old(count) - 1
      ensures r == EOF <==> old(count) <= 0
      ensures r != EOF ==> cur == old(cur) + 1 && buffer[..] == old(buffer[..][cur := c])
      ensures r == EOF ==> cur == old(cur) && buffer[..] == old(buffer[..])
    {
      count := count - 1;
      if count >= 0 {
        buffer[cur] := c;
        cur := cur + 1;
        r := c as int % 0x100;
      } else {
        r := EOF;
      }
    }
  }

  /** The state of a stream and of the running total after `s` was offered to it, starting with
      `total` characters written into a stream with room for `room` in all, none lost so far. */
  ghost predicate Wrote(f: PrintfStream, numWritten: int, room: nat, base: seq<char>, s: seq<char>)
    reads f, f.buffer
  {
    && f.Valid() && room <= |base| && f.buffer.Length == |base|
    && f.cur == |Take(s, room)|
    && f.buffer[..] == Overlay(base, Take(s, room))
    && if |s| <= room then f.count == room - |s| && numWritten == |s|
       else f.count < 0 && numWritten == -1
  }

  lemma TakeBeyond(s: seq<char>, t: seq<char>, n: nat)
    requires |s| > n
    ensures Take(s + t, n) == Take(s, n)
  {
  }

  /** Room that is already used up stays used up, whatever else is offered. */
  lemma StillLost(f: PrintfStream, room: nat, base: seq<char>, s: seq<char>, t: seq<char>)
    requires |s| > room && Wrote(f, -1, room, base, s)
    ensures Wrote(f, -1, room, base, s + t)
  {
    TakeBeyond(s, t, room);
  }

  lemma RoomLeft(f: PrintfStream, numWritten: int, room: nat, base: seq<char>, s: seq<char>)
    requires Wrote(f, numWritten, room, base, s)
    ensures if |s| <= room then f.count == room - |s| else f.count < 0
  {
  }

  /** Put one character and keep the running total: -1 from the first loss on. */
  method Offer(c: char, f: PrintfStream, numWritten: int,
               ghost room: nat, ghost base: seq<char>, ghost before: seq<char>)
    returns (total: int)
    requires Wrote(f, numWritten, room, base, before)
    modifies f`count, f`cur, f.buffer
    ensures Wrote(f, total, room, base, before + [c])
    ensures total == -1 <==> |before| >= room
    ensures f.count == old(f.count) - 1
  {
    var r := f.Putc(c);
    if r == EOF {
      total := -1;
      if |before| == room {
        assert Take(before + [c], room) == before;
      } else {
        TakeBeyond(before, [c], room);
      }
    } else {
      total := numWritten + 1;
      assert Take(before + [c], room) == before + [c];
      assert f.buffer[..] == Overlay(base, before + [c]);
    }
  }

  /** Lower end of the count after one more write: it drops below zero once per losing write. */
  function CountFloor(count: int): int {
    (if count < 0 then count else 0) - 1
  }

  method WriteString(str: seq<char>, len: int, f: PrintfStream, numWritten: int,
                     ghost room: nat, ghost base: seq<char>, ghost before: seq<char>)
    returns (total: int)
    requires len <= |str|
    requires Wrote(f, numWritten, room, base, before)
    modifies f`count, f`cur, f.buffer
    ensures Wrote(f, total, room, base, before + Take(str, len))
    ensures f.count >= CountFloor(old(f.count))
  {
    hide Wrote;
    total := numWritten;
    var i, count := 0, len;
    ghost var done, text := before, Take(str, len);
    while count > 0
      invariant 0 <= i <= |text| && count == len - i
      invariant done == before + text[..i]
      invariant Wrote(f, total, room, base, done)
      invariant i > 0 ==> |done| <= room
      invariant f.count == old(f.count) - i
    {
      RoomLeft(f, total, room, base, done);
      count := count - 1;
      total := Offer(str[i], f, total, room, base, done);
      PrefixNext(before, text, i);
      done := done + [str[i]];
      i := i + 1;
      if total == -1 {
        StillLost(f, room, base, done, text[i..]);
        assert done + text[i..] == before + text;
        return;
      }
    }
    assert done == before + text;
    RoomLeft(f, total, room, base, done);
  }

  method WriteMultiChar(ch: char, num: int, f: PrintfStream, numWritten: int,
                        ghost room: nat, ghost base: seq<char>, ghost before: seq<char>)
    returns (total: int)
    requires Wrote(f, numWritten, room, base, before)
    modifies f`count, f`cur, f.buffer
    ensures Wrote(f, total, room, base, before + Repeated(ch, num))
    ensures f.count >= CountFloor(old(f.count))
  {
    hide Wrote;
    total := numWritten;
    var count := num;
    ghost var done, text, i := before, Repeated(ch, num), 0;
    while count > 0
      invariant 0 <= i <= |text| && count == num - i
      invariant done == before + text[..i]
      invariant Wrote(f, total, room, base, done)
      invariant i > 0 ==> |done| <= room
      invariant f.count == old(f.count) - i
    {
      RoomLeft(f, total, room, base, done);
      count := count - 1;
      total := Offer(ch, f, total, room, base, done);
      PrefixNext(before, text, i);
      done := done + [ch];
      i := i + 1;
      if total == -1 {
        StillLost(f, room, base, done, text[i..]);
        assert done + text[i..] == before + text;
        return;
      }
    }
    assert done == before + text;
    RoomLeft(f, total, room, base, done);
  }

  lemma NumberWritten(f: PrintfStream, numWritten: int, room: nat, base: seq<char>, s: seq<char>)
    requires Wrote(f, numWritten, room, base, s)
    ensures numWritten == if |s| <= room then |s| else -1
  {
  }

  lemma OutputNext(writes: seq<Write>, i: nat)
    requires i < |writes|
    ensures Output(writes[..i + 1]) == Output(writes[..i]) + Produced(writes[i])
  {
    assert writes[..i + 1][..i] == writes[..i];
  }

  /** The format interpreter: its writes in order, then the total, or -1 for a malformed format. */
  method Interpret(format: Format, f: PrintfStream, ghost base: seq<char>)
    returns (retVal: int)
    requires f.count >= 0 && Wrote(f, 0, f.count, base, [])
    modifies f`count, f`cur, f.buffer
    ensures Wrote(f, if |Output(format.writes)| <= old(f.count) then |Output(format.writes)| else -1,
                  old(f.count), base, Output(format.writes))
    ensures retVal == if format.malformed || |Output(format.writes)| > old(f.count) then -1
                      else |Output(format.writes)|
    ensures f.count >= -|format.writes|
  {
    hide Wrote;
    ghost var room := f.count;
    var charsOut, i := 0, 0;
    while i < |format.writes|
      invariant 0 <= i <= |format.writes|
      invariant Wrote(f, charsOut, room, base, Output(format.writes[..i]))
      invariant f.count >= -i
    {
      ghost var before := Output(format.writes[..i]);
      match format.writes[i] {
        case Text(text) =>
          assert Take(text, |text|) == Produced(format.writes[i]);
          charsOut := WriteString(text, |text|, f, charsOut, room, base, before);
        case Repeat(ch, num) =>
          charsOut := WriteMultiChar(ch, num, f, charsOut, room, base, before);
      }
      OutputNext(format.writes, i);
      i := i + 1;
    }
    assert format.writes[..i] == format.writes;
    NumberWritten(f, charsOut, room, base, Output(format.writes));
    retVal := if format.malformed then -1 else charsOut;
  }

  lemma TerminateWhole(base: seq<char>, s: seq<char>)
    requires |s| < |base|
    ensures Overlay(base, s)[|s| := NUL] == Overlay(base, s + [NUL])
  {
  }

  lemma TerminateCut(base: seq<char>, s: seq<char>, n: nat)
    requires 1 <= n <= |base| && n <= |s|
    ensures Overlay(base, Take(s, n))[n - 1 := NUL] == Overlay(base, s[..n - 1] + [NUL])
  {
  }

  /** Format into the first `count` places of the buffer, the terminating NUL included. */
  method VsnprintfImpl(dest: array<char>, count: nat, format: Format) returns (retVal: int)
    requires 1 <= count <= dest.Length
    modifies dest
    ensures var s := Output(format.writes);
            if |s| < count && !format.malformed then
              retVal == |s| && dest[..] == Overlay(old(dest[..]), s + [NUL])
            else if |s| <= count && format.malformed then
              retVal == -1 && dest[..] == Overlay(old(dest[..]), s)
            else
              retVal == PRINTF_TRUNCATE && dest[..] == Overlay(old(dest[..]), s[..count - 1] + [NUL])
  {
    ghost var base, s := dest[..], Output(format.writes);
    var str := new PrintfStream(dest, count);
    retVal := Interpret(format, str, base);
    if retVal >= 0 {
      assert |s| <= count && Take(s, count) == s;
      var r := str.Putc(NUL);
      if r != EOF {
        TerminateWhole(base, s);
        return retVal;
      }
    }
    if str.count < 0 {
      TerminateCut(base, s, count);
      dest[count - 1] := NUL;
      return PRINTF_TRUNCATE;
    }
    return -1;
  }

  predicate Accepted(haveDest: bool, destMax: nat, count: nat, format: Option<Format>) {
    && format.Some? && haveDest && 0 < destMax <= STRING_MAX_LEN
    && (count <= STRING_MAX_LEN - 1 || count == SIZE_MAX)
  }

  /** Refused are a missing format or destination, a destination without room or larger than 2^31 - 1,
      and a count of 2^31 - 1 or more that is not the largest size. */
  lemma AcceptedMeans(haveDest: bool, destMax: nat, count: nat, format: Option<Format>)
    ensures Accepted(haveDest, destMax, count, format) <==>
              format.Some? && haveDest && destMax != 0 && destMax <= 2147483647 &&
              (count <= 2147483646 || count == 18446744073709551615)
  {
  }

  /** The text is that of all writes, in order: */
  lemma {:induction false} OutputSplits(xs: seq<Write>, ys: seq<Write>)
    ensures Output(xs + ys) == Output(xs) + Output(ys)
  {
    hide Produced;
    if ys == [] {
      assert xs + ys == xs;
    } else {
      var front, last := ys[..|ys| - 1], ys[|ys| - 1];
      OutputSplits(xs, front);
      assert (xs + ys)[..|xs + ys| - 1] == xs + front && (xs + ys)[|xs + ys| - 1] == last;
      Regroup(Output(xs), Output(front), Produced(last));
    }
  }

  /** a piece of text for one kind, so many copies of one character for the other. */
  lemma OutputOfOne(w: Write)
    ensures w.Text? ==> Output([w]) == w.text
    ensures w.Repeat? ==> |Output([w])| == (if w.num > 0 then w.num else 0)
    ensures w.Repeat? ==> forall i :: 0 <= i < |Output([w])| ==> Output([w])[i] == w.ch
  {
    assert [w][..0] == [] && Output([w]) == Output([]) + Produced(w);
  }

  /** Characters that can be kept: the caller's limit, and room for the terminator. */
  function Capacity(destMax: nat, count: nat): nat
    requires destMax > 0
  {
    if count < destMax then count else destMax - 1
  }

  /** Return value and buffer after an accepted call on a buffer that held `base`. */
  function Formatted(base: seq<char>, destMax: nat, count: nat, format: Format): (int, seq<char>)
    requires 0 < destMax <= |base|
  {
    var s, cap := Output(format.writes), Capacity(destMax, count);
    if !format.malformed && |s| <= cap then
      (|s|, Overlay(base, s + [NUL]))
    else if format.malformed && |s| <= cap + 1 then
      (-1, Overlay(base, s)[0 := NUL])
    else
      var cut := Overlay(base, s[..cap] + [NUL]);
      (-1, if destMax > count then cut else cut[0 := NUL])
  }

  /** The entry point. Whatever it is given, it changes only the destination. */
  method Vsnprintfp(dest: array?<char>, destMax: nat, count: nat, format: Option<Format>)
    returns (retVal: int)
    requires dest != null ==> destMax <= dest.Length
    requires destMax <= SIZE_MAX && count <= SIZE_MAX
    modifies dest
    ensures !Accepted(dest != null, destMax, count, format) ==>
              retVal == -1 &&
              (dest != null ==>
                 dest[..] == if destMax > 0 then old(dest[..][0 := NUL]) else old(dest[..]))
    ensures Accepted(dest != null, destMax, count, format) ==>
              (retVal, dest[..]) == Formatted(old(dest[..]), destMax, count, format.value)
  {
    if format.None? || dest == null || destMax == 0 || destMax > STRING_MAX_LEN ||
       (count > STRING_MAX_LEN - 1 && count != SIZE_MAX) {
      if dest != null && destMax > 0 {
        dest[0] := NUL;
      }
      return -1;
    }
    if destMax > count {
      retVal := VsnprintfImpl(dest, count + 1, format.value);
      if retVal == PRINTF_TRUNCATE {
        return -1;
      }
    } else {
      retVal := VsnprintfImpl(dest, destMax, format.value);
    }
    if retVal < 0 {
      dest[0] := NUL;
      return -1;
    }
  }

  /** The text a C caller reads: everything before the first NUL. */
  function CString(buffer: seq<char>): seq<char> {
    if buffer == [] || buffer[0] == NUL then [] else [buffer[0]] + CString(buffer[1..])
  }

  /** A reader of C strings stops at the terminator at the latest, whatever stands behind it; at a NUL
      within the text it stops earlier. */
  lemma {:induction false} CStringStopsAtNul(text: seq<char>, rest: seq<char>)
    ensures CString(text + [NUL] + rest) == CString(text)
    ensures CString(text) == text <==> NUL !in text
  {
    var all := text + [NUL] + rest;
    if text != [] {
      assert all[1..] == text[1..] + [NUL] + rest;
      CStringStopsAtNul(text[1..], rest);
      assert text == [text[0]] + text[1..];
      if text[0] != NUL && CString(text) == text {
        assert CString(text[1..]) == CString(text)[1..] == text[1..];
      }
    }
  }

  /** Text with its terminator laid over the destination: a C string, within the destination. */
  lemma Terminated(base: seq<char>, text: seq<char>, destMax: nat)
    requires |text| < destMax <= |base|
    ensures var after := Overlay(base, text + [NUL]);
            && |after| == |base| && after[destMax..] == base[destMax..]
            && NUL in after[..destMax] && CString(after) == CString(text)
  {
    var after := Overlay(base, text + [NUL]);
    CStringStopsAtNul(text, base[|text| + 1..]);
    assert after == text + [NUL] + base[|text| + 1..];
    assert after[..destMax][|text|] == NUL;
  }

  /** What the caller gets back for output S. The return value is |S| exactly when all of S was kept,
      and -1 otherwise. A cut result is kept when `destMax > count` - its first `count` characters - and
      thrown away, leaving the empty string, when not; a malformed format leaves the empty string too,
      unless its output had overrun the stream already, when it is treated as a cut result. In every
      case the destination is terminated and nothing past `destMax` is touched. */
  lemma CallerSees(base: seq<char>, destMax: nat, count: nat, format: Format)
    requires 0 < destMax <= |base|
    ensures var (retVal, after) := Formatted(base, destMax, count, format);
            var s := Output(format.writes);
            && |after| == |base| && after[destMax..] == base[destMax..]
            && NUL in after[..destMax]
            && retVal == (if !format.malformed && |s| <= count && |s| < destMax then |s| else -1)
            && CString(after) ==
                 if retVal >= 0 then CString(s)
                 else if destMax > count && (format.malformed ==> |s| > count + 1) then CString(s[..count])
                 else []
  {
    var (retVal, after) := Formatted(base, destMax, count, format);
    var s, cap := Output(format.writes), Capacity(destMax, count);
    if retVal >= 0 {
      Terminated(base, s, destMax);
    } else if destMax > count && (format.malformed ==> |s| > count + 1) {
      Terminated(base, s[..count], destMax);
    } else {
      assert after[..destMax][0] == NUL;
    }
  }
}
