/** multitaskos_terminal_readline (programs/stdlib/src/multitaskos.c:65-97): keys edited
    into a line until carriage return or a full buffer. */
module Readline {
  import opened Machine
  import opened Strings

  const CARRIAGE_RETURN: char := 13 as char
  const BACKSPACE: char := 8 as char

  /** One key: backspace takes the last character back, but on an empty line it is kept as
      a character. */
  function Edit(line: seq<char>, key: char): seq<char> {
    if key == BACKSPACE && |line| >= 1 then line[..|line| - 1] else line + [key]
  }

  /** The line made of what is there and the keys to come, or None if they do not end it. */
  function LineFrom(line: seq<char>, keys: seq<char>, max: int): Option<seq<char>>
    decreases |keys|
  {
    if |line| >= max - 1 then Some(line)
    else if keys == [] then None
    else if keys[0] == CARRIAGE_RETURN then Some(line)
    else LineFrom(Edit(line, keys[0]), keys[1..], max)
  }

  /** A character and a backspace undo each other exactly while the character does not fill
      the buffer, which ends the line before the backspace is read. */
  lemma BackspaceUndoes(line: seq<char>, c: char, keys: seq<char>, max: int)
    requires c != CARRIAGE_RETURN && c != BACKSPACE && |line| + 1 < max
    ensures |line| + 2 < max ==> LineFrom(line, [c, BACKSPACE] + keys, max) == LineFrom(line, keys, max)
    ensures |line| + 2 >= max ==> LineFrom(line, [c, BACKSPACE] + keys, max) == Some(line + [c])
  {
    var all := [c, BACKSPACE] + keys;
    assert all[1..] == [BACKSPACE] + keys;
    assert ([BACKSPACE] + keys)[1..] == keys;
    assert (line + [c])[..|line|] == line;
  }

  /** A backspace typed first, with no character to take back, stays in the line, and the next
      one takes it back. */
  lemma FirstBackspaceStays(keys: seq<char>, max: int)
    requires max > 2
    ensures LineFrom([], [BACKSPACE] + keys, max) == LineFrom([BACKSPACE], keys, max)
    ensures LineFrom([], [8 as char, 13 as char] + keys, max) == Some([8 as char])
    ensures LineFrom([BACKSPACE], [BACKSPACE] + keys, max) == LineFrom([], keys, max)
  {
    assert ([BACKSPACE] + keys)[1..] == keys;
    var two := [BACKSPACE, CARRIAGE_RETURN] + keys;
    assert two[1..] == [CARRIAGE_RETURN] + keys && [] + [BACKSPACE] == [BACKSPACE];
    assert LineFrom([BACKSPACE], two[1..], max) == Some([BACKSPACE]);
  }

  /** Keys without backspace and carriage return make the line they spell, cut to size. */
  lemma {:induction false} PlainKeys(line: seq<char>, keys: seq<char>, rest: seq<char>, max: int)
    requires CARRIAGE_RETURN !in keys && BACKSPACE !in keys && |line| < max
    ensures LineFrom(line, keys + [CARRIAGE_RETURN] + rest, max) == Some(Clipped(line + keys, max - 1))
    decreases |keys|
  {
    var all := keys + [CARRIAGE_RETURN] + rest;
    if keys == [] {
      assert line + keys == line;
    } else if |line| < max - 1 {
      assert all[1..] == keys[1..] + [CARRIAGE_RETURN] + rest;
      assert keys[0] in keys && line + keys == line + [keys[0]] + keys[1..];
      PlainKeys(line + [keys[0]], keys[1..], rest, max);
    } else {
      assert (line + keys)[..|line|] == line;
    }
  }

  /** multitaskos_terminal_readline: the line the keys make, terminated; done is false while
      the keys do not end it and the call keeps waiting. */
  method TerminalReadline(out: array<char>, max: int, keys: seq<char>) returns (done: bool)
    requires 0 < out.Length && max <= out.Length && NUL !in keys
    modifies out
    ensures done == LineFrom([], keys, max).Some?
    ensures done ==> StringIs(out[..], 0, LineFrom([], keys, max).value)
  {
    hide StringIs;
    var i, k := 0, 0;
    ghost var line := [];
    while i < max - 1
      invariant 0 <= i && (i == 0 || i < max) && k <= |keys| && line == out[..i] && NUL !in line
      invariant LineFrom([], keys, max) == LineFrom(line, keys[k..], max)
      decreases |keys| - k
    {
      if k == |keys| {
        return false;
      }
      var key := keys[k];
      assert keys[k..][1..] == keys[k + 1..];
      k := k + 1;
      if key == CARRIAGE_RETURN {
        break;
      }
      line := Edit(line, key);
      if key == BACKSPACE && i >= 1 {
        out[i - 1] := NUL;
        i := i - 1;
      } else {
        out[i] := key;
        i := i + 1;
      }
    }
    out[i] := NUL;
    assert out[..i] == line;
    StringAt(out[..], 0, line);
    done := true;
  }
}
