/** programs/stdlib/src/string.c: NUL-terminated strings in a program's memory, strncpy,
    and strtok with its one global cursor. */
module Strings {
  import opened Machine

  const NUL: char := '\0'

  /** The string that starts a stretch of memory. */
  function CString(s: seq<char>): (r: seq<char>)
    ensures |r| <= |s| && r == s[..|r|] && NUL !in r && (|r| < |s| ==> s[|r|] == NUL)
  {
    if s == [] || s[0] == NUL then [] else [s[0]] + CString(s[1..])
  }

  lemma CStringIs(s: seq<char>, n: nat)
    requires n < |s| && s[n] == NUL && NUL !in s[..n]
    ensures CString(s) == s[..n]
  {
    if n > 0 {
      assert s[..n][1..] == s[1..][..n - 1] && s[..n][0] == s[0];
      CStringIs(s[1..], n - 1);
    }
  }

  /** What strncpy with room for n + 1 characters copies of it. */
  function Clipped(s: seq<char>, n: nat): seq<char> {
    if |s| <= n then s else s[..n]
  }

  predicate Terminated(memory: seq<char>, p: nat) {
    p < |memory| && NUL in memory[p..]
  }

  /** A terminated string ends inside its memory. */
  lemma EndsWithin(memory: seq<char>, p: nat)
    requires Terminated(memory, p)
    ensures p < |memory| && p + |CString(memory[p..])| < |memory|
  {
    CStringEnds(memory[p..]);
  }

  lemma {:induction false} CStringEnds(s: seq<char>)
    requires NUL in s
    ensures |CString(s)| < |s|
  {
    if s[0] != NUL {
      assert s == [s[0]] + s[1..];
      CStringEnds(s[1..]);
    }
  }

  lemma TextAt(memory: seq<char>, p: nat, k: nat)
    requires Terminated(memory, p) && k <= |CString(memory[p..])|
    ensures p + k < |memory|
    ensures var text := CString(memory[p..]);
      if k < |text| then memory[p + k] == text[k] != NUL else memory[p + k] == NUL
  {
    EndsWithin(memory, p);
    assert memory[p..][k] == memory[p + k];
    if k < |CString(memory[p..])| { assert CString(memory[p..])[k] in CString(memory[p..]); }
  }

  /** What strncpy with room for count characters makes of dest[at..]. */
  function Copied(dest: seq<char>, at: nat, text: seq<char>): seq<char>
    requires at + |text| < |dest|
  {
    dest[..at] + text + [NUL] + dest[at + |text| + 1..]
  }

  lemma CopiedReads(dest: seq<char>, at: nat, text: seq<char>)
    requires at + |text| < |dest| && NUL !in text
    ensures |Copied(dest, at, text)| == |dest| && Terminated(Copied(dest, at, text), at)
    ensures CString(Copied(dest, at, text)[at..]) == text
    ensures Copied(dest, at, text)[..at] == dest[..at]
  {
    var s := Copied(dest, at, text)[at..];
    assert s == text + [NUL] + dest[at + |text| + 1..];
    assert s[|text|] == NUL && s[..|text|] == text;
    CStringIs(s, |text|);
  }

  /** strncpy: at most count - 1 characters of the string at from, and a NUL. */
  method Strncpy(dest: array<char>, at: nat, src: array<char>, from: nat, count: nat)
    requires dest != src && count > 0 && at + count <= dest.Length
    requires Terminated(src[..], from) || from + count - 1 <= src.Length
    modifies dest
    ensures dest[..] == Copied(old(dest[..]), at, Clipped(CString(src[from..]), count - 1))
    ensures var (text, was) := (CString(src[from..]), old(dest[..]));
      var n := if |text| < count then |text| else count - 1;
      dest[..] == was[..at] + text[..n] + [NUL] + was[at + n + 1..]
  {
    hide CString, Terminated, Copied, Clipped, Partly;
    ghost var source, before := src[..], dest[..];
    Readable(source, from, count);
    ghost var text := CString(source[from..]);
    assert src[from..] == source[from..];
    ClippedCopy(before, at, text, count);
    NonePartly(before, at, text);
    var i := 0;
    while i < count - 1
      invariant i <= count - 1 && i <= |text|
      invariant dest[..] == Partly(before, at, text, i)
    {
      TextUpTo(source, from, i, count);
      if src[from + i] == NUL {
        break;
      }
      PartlyGrows(before, at, text, i);
      dest[at + i] := src[from + i];
      i := i + 1;
    }
    PartlyEnds(before, at, text, i, count);
    dest[at + i] := NUL;
  }

  function Partly(dest: seq<char>, at: nat, text: seq<char>, i: nat): seq<char>
    requires at + i <= |dest| && i <= |text|
  {
    dest[..at] + text[..i] + dest[at + i..]
  }

  lemma NonePartly(dest: seq<char>, at: nat, text: seq<char>)
    requires at <= |dest|
    ensures Partly(dest, at, text, 0) == dest
  {
  }

  lemma ClippedCopy(dest: seq<char>, at: nat, text: seq<char>, count: nat)
    requires count > 0 && at + count <= |dest|
    ensures |Clipped(text, count - 1)| < count
    ensures var n := if |text| < count then |text| else count - 1;
      Copied(dest, at, Clipped(text, count - 1)) == dest[..at] + text[..n] + [NUL] + dest[at + n + 1..]
  {
  }

  lemma PartlyGrows(dest: seq<char>, at: nat, text: seq<char>, i: nat)
    requires at + i < |dest| && i < |text|
    ensures Partly(dest, at, text, i)[at + i := text[i]] == Partly(dest, at, text, i + 1)
  {
  }

  lemma PartlyEnds(dest: seq<char>, at: nat, text: seq<char>, i: nat, count: nat)
    requires at + i < |dest| && i <= |text| && (i == |text| || i == count - 1) && i < count
    ensures Partly(dest, at, text, i)[at + i := NUL] == Copied(dest, at, Clipped(text, count - 1))
  {
    assert Clipped(text, count - 1) == text[..i];
  }

  /** strncpy never reads past the end of its source. */
  lemma Readable(memory: seq<char>, from: nat, count: nat)
    requires count > 0 && (Terminated(memory, from) || from + count - 1 <= |memory|)
    ensures from <= |memory|
    ensures |CString(memory[from..])| < count - 1 ==> from + |CString(memory[from..])| < |memory|
  {
  }

  lemma TextUpTo(memory: seq<char>, from: nat, i: nat, count: nat)
    requires i < count - 1 && from <= |memory| && (Terminated(memory, from) || from + count - 1 <= |memory|)
    requires i <= |CString(memory[from..])|
    ensures from + i < |memory|
    ensures var text := CString(memory[from..]);
      if i < |text| then memory[from + i] == text[i] != NUL else memory[from + i] == NUL
  {
    if Terminated(memory, from) { TextAt(memory, from, i); }
  }

  // --- Words -----------------------------------------------------------------------------------

  /** How many delimiters s starts with. */
  function Skip(s: seq<char>, d: seq<char>): (n: nat)
    ensures n <= |s|
  {
    if s == [] || s[0] !in d then 0 else 1 + Skip(s[1..], d)
  }

  lemma {:induction false} SkipMeans(s: seq<char>, d: seq<char>)
    ensures var n := Skip(s, d); (forall k :: 0 <= k < n ==> s[k] in d) && (n < |s| ==> s[n] !in d)
  {
    if s != [] && s[0] in d { SkipMeans(s[1..], d); }
  }

  /** How many characters s starts with that are not delimiters. */
  function Span(s: seq<char>, d: seq<char>): (n: nat)
    ensures n <= |s|
  {
    if s == [] || s[0] in d then 0 else 1 + Span(s[1..], d)
  }

  lemma {:induction false} SpanMeans(s: seq<char>, d: seq<char>)
    ensures var n := Span(s, d); (forall k :: 0 <= k < n ==> s[k] !in d) && (n < |s| ==> s[n] in d)
  {
    if s != [] && s[0] !in d { SpanMeans(s[1..], d); }
  }

  /** Behind the delimiters comes a word that ends at a delimiter or with the string. */
  lemma FirstWord(s: seq<char>, d: seq<char>, a: nat, n: nat)
    requires a == Skip(s, d) < |s| && n == Span(s[a..], d)
    ensures n > 0 && a + n <= |s| && s[a..][..n] == s[a..a + n] && (a + n < |s| ==> s[a + n] in d)
    ensures forall k :: 0 <= k < n ==> s[a..][..n][k] !in d
  {
    hide Skip, Span;
    SkipMeans(s, d);
    SpanMeans(s[a..], d);
    assert s[a..][0] == s[a];
  }

  lemma SkipIs(s: seq<char>, d: seq<char>, n: nat)
    requires n <= |s| && (forall k :: 0 <= k < n ==> s[k] in d) && (n < |s| ==> s[n] !in d)
    ensures Skip(s, d) == n
  {
    if n > 0 { SkipIs(s[1..], d, n - 1); }
  }

  lemma SpanIs(s: seq<char>, d: seq<char>, n: nat)
    requires n <= |s| && (forall k :: 0 <= k < n ==> s[k] !in d) && (n < |s| ==> s[n] in d)
    ensures Span(s, d) == n
  {
    if n > 0 { SpanIs(s[1..], d, n - 1); }
  }

  /** What follows the first n characters and the delimiter after them. */
  function After(s: seq<char>, n: nat): seq<char> {
    if n < |s| then s[n + 1..] else []
  }

  /** The words strtok hands out one by one. */
  function Words(s: seq<char>, d: seq<char>): seq<seq<char>>
    decreases |s|
  {
    var a := Skip(s, d);
    if a == |s| then []
    else
      var t := s[a..];
      var n := Span(t, d);
      [t[..n]] + Words(After(t, n), d)
  }

  /** s[a..b] holds no delimiter, is not empty, and cannot be extended either way. */
  predicate MaximalRun(s: seq<char>, d: seq<char>, a: nat, b: nat) {
    && a < b <= |s| && (forall k :: a <= k < b ==> s[k] !in d)
    && (a > 0 ==> s[a - 1] in d) && (b < |s| ==> s[b] in d)
  }

  /** The first non-delimiter from a position on. */
  function RunStart(s: seq<char>, d: seq<char>, from: nat): (a: nat)
    requires from <= |s|
    ensures from <= a <= |s|
  {
    from + Skip(s[from..], d)
  }

  /** The delimiter, or the end of s, behind a position. */
  function RunEnd(s: seq<char>, d: seq<char>, a: nat): (b: nat)
    requires a <= |s|
    ensures a <= b <= |s|
  {
    a + Span(s[a..], d)
  }

  function Beyond(s: seq<char>, b: nat): nat {
    if b < |s| then b + 1 else b
  }

  /** Where the words of s that start at from or later lie. */
  function Spans(s: seq<char>, d: seq<char>, from: nat): seq<(nat, nat)>
    requires from <= |s|
    decreases |s| - from
  {
    var a := RunStart(s, d, from);
    if a == |s| then []
    else
      var b := RunEnd(s, d, a);
      [(a, b)] + Spans(s, d, Beyond(s, b))
  }

  function Slice(s: seq<char>, p: (nat, nat)): seq<char> {
    if p.0 <= p.1 <= |s| then s[p.0..p.1] else []
  }

  function Slices(s: seq<char>, spans: seq<(nat, nat)>): (r: seq<seq<char>>)
    ensures |r| == |spans| && forall i :: 0 <= i < |r| ==> r[i] == Slice(s, spans[i])
  {
    if spans == [] then [] else [Slice(s, spans[0])] + Slices(s, spans[1..])
  }

  /** The words are the stretches Spans names, in that order. */
  lemma {:induction false} WordsAreSpans(s: seq<char>, d: seq<char>, from: nat)
    requires from <= |s|
    ensures Words(s[from..], d) == Slices(s, Spans(s, d, from))
    decreases |s| - from
  {
    hide RunStart, RunEnd, Slice, Words;
    OneWord(s, d, from);
    var a := RunStart(s, d, from);
    if a < |s| {
      var next := Beyond(s, RunEnd(s, d, a));
      WordsAreSpans(s, d, next);
      assert Spans(s, d, from)[1..] == Spans(s, d, next);
    }
  }

  lemma OneWord(s: seq<char>, d: seq<char>, from: nat)
    requires from <= |s|
    ensures RunStart(s, d, from) == |s| ==> Words(s[from..], d) == []
    ensures RunStart(s, d, from) < |s| ==>
      var a := RunStart(s, d, from); var b := RunEnd(s, d, a);
      Words(s[from..], d) == [Slice(s, (a, b))] + Words(s[Beyond(s, b)..], d)
  {
    hide Skip, Span, Words, After, Slice, Beyond;
    FirstOfWords(s[from..], d);
    var a := RunStart(s, d, from);
    if a < |s| {
      var b := RunEnd(s, d, a);
      TailOfTail(s, from, a);
      AfterWord(s, a, b);
    }
  }

  lemma TailOfTail(s: seq<char>, from: nat, a: nat)
    requires from <= a <= |s|
    ensures s[from..][a - from..] == s[a..]
  {
  }

  lemma AfterWord(s: seq<char>, a: nat, b: nat)
    requires a <= b <= |s|
    ensures s[a..][..b - a] == Slice(s, (a, b)) && After(s[a..], b - a) == s[Beyond(s, b)..]
  {
  }

  lemma FirstOfWords(s: seq<char>, d: seq<char>)
    ensures var a := Skip(s, d); var n := Span(s[a..], d);
      Words(s, d) == if a == |s| then [] else [s[a..][..n]] + Words(After(s[a..], n), d)
  {
    hide Skip, Span;
  }

  /** The first word from a boundary on is a maximal run, and any other run starts after
      the delimiter behind it. */
  lemma FirstRun(s: seq<char>, d: seq<char>, from: nat)
    requires from <= |s| && (from == 0 || from == |s| || s[from - 1] in d)
    ensures var a := RunStart(s, d, from); var b := RunEnd(s, d, a);
      && (a < |s| ==> MaximalRun(s, d, a, b))
      && forall x: nat, y: nat :: x >= from && MaximalRun(s, d, x, y) ==> a < |s| && (x > b || (x == a && y == b))
  {
    hide Skip, Span;
    var a := RunStart(s, d, from);
    var b := RunEnd(s, d, a);
    SkipMeans(s[from..], d);
    SpanMeans(s[a..], d);
    forall k | from <= k < a ensures s[k] in d { assert s[from..][k - from] in d; }
    if a < |s| {
      assert s[from..][a - from] !in d;
      assert s[a..][0] !in d;
      assert b > a;
      forall k | a <= k < b ensures s[k] !in d { assert s[a..][k - a] !in d; }
      assert b < |s| ==> s[a..][b - a] in d;
    }
    forall x: nat, y: nat | x >= from && MaximalRun(s, d, x, y)
      ensures a < |s| && (x > b || (x == a && y == b))
    {
      assert s[x] !in d;
      RunsMeet(s, d, a, b, x, y);
    }
  }

  /** Two maximal runs are equal or apart. */
  lemma RunsMeet(s: seq<char>, d: seq<char>, a: nat, b: nat, x: nat, y: nat)
    requires MaximalRun(s, d, a, b) && MaximalRun(s, d, x, y)
    ensures (x == a && y == b) || x > b || y < a
  {
  }

  predicate Ascending(spans: seq<(nat, nat)>) {
    forall i, j :: 0 <= i < j < |spans| ==> spans[i].1 < spans[j].0
  }

  /** Spans names every maximal delimiter-free run from a boundary on, nothing else, and in
      order. */
  lemma {:induction false} SpansAreMaximalRuns(s: seq<char>, d: seq<char>, from: nat)
    requires from <= |s| && (from == 0 || from == |s| || s[from - 1] in d)
    ensures forall a: nat, b: nat :: (a, b) in Spans(s, d, from) <==> (a >= from && MaximalRun(s, d, a, b))
    ensures Ascending(Spans(s, d, from))
    decreases |s| - from
  {
    hide RunStart, RunEnd, MaximalRun;
    FirstRun(s, d, from);
    var a := RunStart(s, d, from);
    if a < |s| {
      var b := RunEnd(s, d, a);
      RunEnds(s, d, a, b);
      var next := Beyond(s, b);
      SpansAreMaximalRuns(s, d, next);
      var rest := Spans(s, d, next);
      forall i | 0 <= i < |rest| ensures rest[i].0 > b {
        assert (rest[i].0, rest[i].1) in rest;
      }
    }
  }

  lemma RunEnds(s: seq<char>, d: seq<char>, a: nat, b: nat)
    requires MaximalRun(s, d, a, b)
    ensures b < |s| ==> s[b] in d
    ensures b == |s| ==> forall x: nat, y: nat :: x >= b ==> !MaximalRun(s, d, x, y)
  {
  }

  /** strtok hands out exactly the maximal delimiter-free runs of the string, in order. */
  lemma WordsAreMaximalRuns(s: seq<char>, d: seq<char>)
    ensures |Words(s, d)| == |Spans(s, d, 0)|
    ensures forall i :: 0 <= i < |Words(s, d)| ==>
      var p := Spans(s, d, 0)[i]; (MaximalRun(s, d, p.0, p.1) && Words(s, d)[i] == s[p.0..p.1])
    ensures forall a: nat, b: nat :: MaximalRun(s, d, a, b) ==> (a, b) in Spans(s, d, 0)
    ensures Ascending(Spans(s, d, 0))
  {
    hide Spans, Words, Ascending;
    assert s[0..] == s;
    WordsAreSpans(s, d, 0);
    SpansAreMaximalRuns(s, d, 0);
    forall i | 0 <= i < |Spans(s, d, 0)|
      ensures MaximalRun(s, d, Spans(s, d, 0)[i].0, Spans(s, d, 0)[i].1)
    {
      var p := Spans(s, d, 0)[i];
      assert (p.0, p.1) in Spans(s, d, 0);
    }
  }

  // --- Joining ----------------------------------------------------------------------------------

  function Join(words: seq<seq<char>>, sep: char): seq<char> {
    if words == [] then []
    else if |words| == 1 then words[0]
    else words[0] + [sep] + Join(words[1..], sep)
  }

  /** A word that can be told apart in a line: not empty, and without the separator. */
  predicate IsWord(w: seq<char>, sep: char) {
    w != [] && sep !in w
  }

  lemma {:induction false} WordsOfJoin(words: seq<seq<char>>, sep: char)
    requires forall w :: w in words ==> IsWord(w, sep)
    ensures Words(Join(words, sep), [sep]) == words
  {
    if words != [] {
      var w, s := words[0], Join(words, sep);
      assert w in words && s[..|w|] == w;
      forall k | 0 <= k < |w| ensures s[k] != sep { assert s[k] == w[k]; }
      SkipIs(s, [sep], 0);
      assert s[0..] == s;
      SpanIs(s, [sep], |w|);
      if |words| > 1 { assert After(s, |w|) == Join(words[1..], sep); }
      assert words == [w] + words[1..];
      WordsOfJoin(words[1..], sep);
      assert |words| == 1 ==> words[1..] == [];
    }
  }

  lemma {:induction false} WordsAreFew(s: seq<char>, d: seq<char>)
    ensures |Words(s, d)| <= |s|
    decreases |s|
  {
    var a := Skip(s, d);
    if a < |s| { WordsAreFew(After(s[a..], Span(s[a..], d)), d); }
  }

  lemma {:induction false} WordsAreWords(s: seq<char>, sep: char)
    ensures forall w :: w in Words(s, [sep]) ==> IsWord(w, sep)
    decreases |s|
  {
    var a := Skip(s, [sep]);
    if a < |s| {
      var t := s[a..];
      FirstWord(s, [sep], a, Span(t, [sep]));
      WordsAreWords(After(t, Span(t, [sep])), sep);
    }
  }

  /** Joining words with a separator and splitting again gives them back exactly when none
      is empty and none holds the separator. */
  lemma JoinThenWordsIff(words: seq<seq<char>>, sep: char)
    ensures Words(Join(words, sep), [sep]) == words <==> (forall w :: w in words ==> IsWord(w, sep))
  {
    WordsAreWords(Join(words, sep), sep);
    if forall w :: w in words ==> IsWord(w, sep) { WordsOfJoin(words, sep); }
  }

  // --- strtok -------------------------------------------------------------------------------------

  /** The memory after strtok has ended a word of n characters at p + a: the word stands
      alone there, and the other words are those of the string behind its end. */
  function Ended(memory: seq<char>, p: nat, a: nat, n: nat): seq<char>
    requires p + a + n < |memory|
  {
    if memory[p + a + n] == NUL then memory else memory[p + a + n := NUL]
  }

  /** The memory is as before but for a delimiter before at that may have become NUL. */
  predicate CutBefore(before: seq<char>, after: seq<char>, at: nat, d: seq<char>) {
    after == before || (0 < at <= |before| && before[at - 1] in d && after == before[at - 1 := NUL])
  }

  /** What a call of strtok that starts at p hands out: the first word of the string there,
      now a string of its own, with the cursor on a string holding the other words; or null,
      with a null cursor, when there is no word. */
  ghost predicate Handed(before: seq<char>, p: nat, d: seq<char>, after: seq<char>, sp: Option<nat>, token: Option<nat>)
    requires p <= |before|
  {
    var text := CString(before[p..]);
    var words := Words(text, d);
    if words == [] then token.None? && sp.None? && after == before
    else
      (token.Some? && sp.Some? && p <= token.value < sp.value <= p + |text|
      && StringIs(after, token.value, words[0])
      && Terminated(after, sp.value) && Words(CString(after[sp.value..]), d) == words[1..]
      && CutBefore(before, after, sp.value, d))
  }

  lemma EndedReads(memory: seq<char>, p: nat, d: seq<char>, a: nat, n: nat)
    requires Terminated(memory, p) && a == Skip(CString(memory[p..]), d) < |CString(memory[p..])|
    requires n == Span(CString(memory[p..])[a..], d)
    ensures p + a + n < |memory|
    ensures Handed(memory, p, d, Ended(memory, p, a, n), Some(p + Beyond(CString(memory[p..]), a + n)), Some(p + a))
  {
    hide Skip, Span, Words, CString, Terminated, StringIs;
    EndsWithin(memory, p);
    var text := CString(memory[p..]);
    TextAt(memory, p, a + n);
    FirstOfWords(text, d);
    EndedText(memory, p, a, n);
    FirstWord(text, d, a, n);
    assert After(text[a..], n) == text[Beyond(text, a + n)..];
  }

  lemma NothingHanded(memory: seq<char>, p: nat, d: seq<char>)
    requires Terminated(memory, p) && Skip(CString(memory[p..]), d) == |CString(memory[p..])|
    ensures Handed(memory, p, d, memory, None, None)
  {
  }

  /** Ending the text after characters a to a + n leaves those as one string and what comes
      behind as another. */
  lemma EndedText(memory: seq<char>, p: nat, a: nat, n: nat)
    requires Terminated(memory, p) && a + n <= |CString(memory[p..])|
    ensures var text := CString(memory[p..]); var next := p + Beyond(text, a + n);
      && p + a + n < |memory| && next < |memory|
      && StringIs(Ended(memory, p, a, n), p + a, text[a..a + n])
      && StringIs(Ended(memory, p, a, n), next, text[Beyond(text, a + n)..])
      && Terminated(Ended(memory, p, a, n), next)
        && CString(Ended(memory, p, a, n)[next..]) == text[Beyond(text, a + n)..]
  {
    hide CString, Terminated;
    TextReads(memory, p);
    var text := CString(memory[p..]);
    var after := Ended(memory, p, a, n);
    StringAt(after, p + a, text[a..a + n]);
    StringAt(after, p + Beyond(text, a + n), text[Beyond(text, a + n)..]);
  }

  predicate StringIs(memory: seq<char>, p: nat, text: seq<char>) {
    Terminated(memory, p) && CString(memory[p..]) == text
  }

  lemma TextReads(memory: seq<char>, p: nat)
    requires Terminated(memory, p)
    ensures var text := CString(memory[p..]);
      && p + |text| < |memory| && memory[p + |text|] == NUL && NUL !in text
      && forall k :: p <= k < p + |text| ==> memory[k] == text[k - p]
  {
    hide CString, Terminated;
    EndsWithin(memory, p);
    forall k | p <= k < p + |CString(memory[p..])| ensures memory[k] == CString(memory[p..])[k - p] {
      TextAt(memory, p, k - p);
    }
  }

  lemma StringAt(memory: seq<char>, p: nat, text: seq<char>)
    requires p + |text| < |memory| && (forall k :: p <= k < p + |text| ==> memory[k] == text[k - p])
    requires memory[p + |text|] == NUL && NUL !in text
    ensures StringIs(memory, p, text)
  {
    assert memory[p..][..|text|] == text;
    assert memory[p..][|text|] == NUL;
    CStringIs(memory[p..], |text|);
  }

  /** A program's memory and the cursor sp; None is the null pointer. */
  class Tokenizer {
    const memory: array<char>
    var sp: Option<nat>

    constructor (memory: array<char>)
      ensures this.memory == memory && sp == None
    {
      this.memory := memory;
      sp := None;
    }

    /** Where a call starts: a cursor left over from earlier wins over str. */
    function Start(str: Option<nat>): Option<nat>
      reads this
    {
      if sp.Some? then sp else str
    }

    /** strtok. The starting point is the cursor, if there is one, whatever str is. */
    method Strtok(str: Option<nat>, delimiters: seq<char>) returns (token: Option<nat>)
      requires NUL !in delimiters
      requires Start(str).Some? ==> Terminated(memory[..], Start(str).value)
      modifies this`sp, memory
      ensures old(Start(str)).None? ==> token.None? && sp.None? && memory[..] == old(memory[..])
      ensures old(Start(str)).Some? ==>
        Handed(old(memory[..]), old(Start(str)).value, delimiters, memory[..], sp, token)
    {
      hide Words, CString, Skip, Span, Terminated, Ended, Handed;
      if str.None? && sp.None? {
        return None;
      }
      if str.Some? && sp.None? {
        sp := str;
      }
      ghost var p := sp.value;
      ghost var before := memory[..];
      EndsWithin(before, p);
      ghost var text := CString(before[p..]);
      var pStart := SkipDelimiters(sp.value, delimiters);
      sp := Some(pStart);
      ghost var a := pStart - p;
      TextAt(before, p, a);
      if memory[pStart] == NUL {
        NothingHanded(before, p, delimiters);
        sp := None;
        return None;
      }
      FindEnd(before, p, a, delimiters);
      token := Some(pStart);
      EndedReads(before, p, delimiters, a, Span(text[a..], delimiters));
    }

    /** strtok's first loop: step over the delimiters at the cursor. */
    method SkipDelimiters(p: nat, delimiters: seq<char>) returns (pStart: nat)
      requires NUL !in delimiters && Terminated(memory[..], p)
      ensures pStart == p + Skip(CString(memory[..][p..]), delimiters)
    {
      hide CString, Skip, Terminated;
      EndsWithin(memory[..], p);
      ghost var text := CString(memory[..][p..]);
      pStart := p;
      while true
        invariant p <= pStart <= p + |text|
        invariant forall k :: 0 <= k < pStart - p ==> text[k] in delimiters
        decreases p + |text| - pStart
      {
        TextAt(memory[..], p, pStart - p);
        var i := IndexIn(memory[pStart], delimiters);
        if i == |delimiters| {
          break;
        }
        pStart := pStart + 1;
      }
      SkipIs(text, delimiters, pStart - p);
    }

    /** strtok's second loop: end the word under the cursor and step past its end. */
    method FindEnd(ghost before: seq<char>, ghost p: nat, ghost a: nat, delimiters: seq<char>)
      requires memory[..] == before && Terminated(before, p) && sp == Some(p + a) && a <= |CString(before[p..])|
      modifies this`sp, memory
      ensures var text := CString(before[p..]); var n := Span(text[a..], delimiters);
        p + a + n < |before| && memory[..] == Ended(before, p, a, n) && sp == Some(p + Beyond(text, a + n))
    {
      hide Words, CString, Skip, Span, Terminated;
      EndsWithin(before, p);
      ghost var text := CString(before[p..]);
      ghost var n := 0;
      TextAt(before, p, a);
      while memory[sp.value] != NUL
        invariant sp == Some(p + a + n) && a + n <= |text|
        invariant memory[..] == before
        invariant forall k :: 0 <= k < n ==> text[a..][k] !in delimiters
        decreases |text| - n
      {
        TextAt(before, p, a + n);
        var i := IndexIn(memory[sp.value], delimiters);
        if i < |delimiters| {
          memory[sp.value] := NUL;
          sp := Some(sp.value + 1);
          SpanIs(text[a..], delimiters, n);
          return;
        }
        sp := Some(sp.value + 1);
        n := n + 1;
      }
      TextAt(before, p, a + n);
      SpanIs(text[a..], delimiters, n);
    }

    /** The search both of strtok's loops make for a character among the delimiters. */
    method IndexIn(c: char, delimiters: seq<char>) returns (i: nat)
      ensures i <= |delimiters| && (i == |delimiters| <==> c !in delimiters)
    {
      i := 0;
      while i < |delimiters| && c != delimiters[i]
        invariant i <= |delimiters| && c !in delimiters[..i]
      {
        i := i + 1;
      }
      assert i == |delimiters| ==> delimiters[..i] == delimiters;
    }
  }
}
