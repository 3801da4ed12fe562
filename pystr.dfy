/**
 * The parts of Python's `str` that the equipment parser relies on: the
 * whitespace class used by `strip()` and `split()`, `find`, `split(sep)`,
 * `sep.join(...)` and `lower()`, and the last-index lookup a dict
 * comprehension over an enumerated list ends up with.
 */
module PyStr {

  /** The characters for which Python's `str.isspace()` holds; `strip()` and
      `split()` with no argument remove and split on exactly these. */
  predicate IsSpace(c: char) {
    || c == ' '
    || ('\t' <= c <= '\r')
    || ('\U{1C}' <= c <= '\U{1F}')
    || c == '\U{85}' || c == '\U{A0}' || c == '\U{1680}'
    || ('\U{2000}' <= c <= '\U{200A}')
    || c == '\U{2028}' || c == '\U{2029}' || c == '\U{202F}' || c == '\U{205F}' || c == '\U{3000}'
  }

  /** `s.lstrip()`: the suffix of `s` left after removing leading whitespace. */
  function LStrip(s: string): (r: string)
    ensures |r| <= |s|
    ensures r == [] || !IsSpace(r[0])
    ensures forall i :: 0 <= i < |s| - |r| ==> IsSpace(s[i])
  {
    if s != [] && IsSpace(s[0]) then LStrip(s[1..]) else s
  }

  /** The result of `lstrip()` is the suffix of `s` after its leading whitespace. */
  lemma {:induction false} LStripSuffix(s: string)
    ensures LStrip(s) == s[|s| - |LStrip(s)|..]
  {
    if s != [] && IsSpace(s[0]) {
      LStripSuffix(s[1..]);
      assert s[1..][|s| - 1 - |LStrip(s)|..] == s[|s| - |LStrip(s)|..];
    }
  }

  /** `s.rstrip()`: the prefix of `s` left after removing trailing whitespace. */
  function RStrip(s: string): (r: string)
    ensures |r| <= |s| && r == s[..|r|]
    ensures r == [] || !IsSpace(r[|r| - 1])
    ensures forall i :: |r| <= i < |s| ==> IsSpace(s[i])
  {
    if s != [] && IsSpace(s[|s| - 1]) then RStrip(s[..|s| - 1]) else s
  }

  /** A string with no whitespace at either end. */
  predicate IsStripped(s: string) {
    s == [] || (!IsSpace(s[0]) && !IsSpace(s[|s| - 1]))
  }

  /** `s.strip()`: the middle slice of `s` that has no whitespace at either end. */
  function Strip(s: string): (r: string)
    ensures IsStripped(r)
  {
    RStrip(LStrip(s))
  }

  /** `s.strip()` is the slice of `s` after its leading whitespace, and is
      empty exactly when `s` is all whitespace. */
  lemma {:induction false} StripSlice(s: string)
    ensures |s| - |LStrip(s)| + |Strip(s)| <= |s|
    ensures Strip(s) == s[|s| - |LStrip(s)|..|s| - |LStrip(s)| + |Strip(s)|]
    ensures Strip(s) == [] <==> forall i :: 0 <= i < |s| ==> IsSpace(s[i])
  {
    var l := LStrip(s);
    var r := RStrip(l);
    LStripSuffix(s);
    assert r == [] ==> l == [];
  }

  /** `s.strip()` removes only whitespace: every character before and every
      character after the stripped slice is whitespace. */
  lemma {:induction false} StripDropsOnlySpace(s: string)
    ensures var start := |s| - |LStrip(s)|;
      && (forall i :: 0 <= i < start ==> IsSpace(s[i]))
      && (forall i :: start + |Strip(s)| <= i < |s| ==> IsSpace(s[i]))
  {
    var l := LStrip(s);
    var r := RStrip(l);
    var start := |s| - |l|;
    assert Strip(s) == r;
    LStripSuffix(s);
    assert l == s[start..];
    forall i | start + |r| <= i < |s|
      ensures IsSpace(s[i])
    {
      assert s[i] == l[i - start];
      assert IsSpace(l[i - start]);
    }
  }

  /** A character missing from `s` is missing from `s.strip()`. */
  lemma {:induction false} StripAvoid(s: string, c: char)
    ensures c !in s ==> c !in Strip(s)
  {
    StripSlice(s);
  }

  /** Stripping leaves an already stripped string alone. */
  lemma {:induction false} StripStripped(s: string)
    requires IsStripped(s)
    ensures Strip(s) == s
  {
  }

  /** A string that starts with a non-whitespace character keeps it in front after `strip()`. */
  lemma {:induction false} StripKeepsHead(s: string)
    requires s != [] && !IsSpace(s[0])
    ensures Strip(s) == RStrip(s) && Strip(s) != [] && Strip(s)[0] == s[0]
  {
  }

  /** Removing trailing whitespace from `a + b` touches only `b` when `b` holds a non-whitespace character. */
  lemma {:induction false} RStripAppend(a: string, b: string)
    requires exists i :: 0 <= i < |b| && !IsSpace(b[i])
    ensures RStrip(a + b) == a + RStrip(b)
    decreases |b|
  {
    if IsSpace(b[|b| - 1]) {
      assert (a + b)[..|a + b| - 1] == a + b[..|b| - 1];
      var i :| 0 <= i < |b| && !IsSpace(b[i]);
      assert i < |b| - 1 && !IsSpace(b[..|b| - 1][i]);
      RStripAppend(a, b[..|b| - 1]);
    }
  }

  /** Stripping a text that starts with a non-space and ends in a piece holding
      some non-space only trims that piece's right end. */
  lemma {:induction false} StripAppend(a: string, b: string)
    requires a != [] && !IsSpace(a[0])
    requires Strip(b) != []
    ensures Strip(a + b) == a + RStrip(b) && RStrip(b) != []
  {
    StripSlice(b);
    var i :| 0 <= i < |b| && !IsSpace(b[i]);
    RStripAppend(a, b);
    assert (a + b)[0] == a[0];
    StripKeepsHead(a + b);
  }

  /** A slice cut in two at an inner position. */
  lemma {:induction false} SliceSplit<T>(s: seq<T>, a: nat, b: nat, c: nat)
    requires a <= b <= c <= |s|
    ensures s[a..c] == s[a..b] + s[b..c]
  {
  }

  /** Number of leading non-whitespace characters of `s`. */
  function TokenLength(s: string): (n: nat)
    ensures n <= |s|
    ensures forall k :: 0 <= k < n ==> !IsSpace(s[k])
    ensures n == |s| || IsSpace(s[n])
  {
    if s == [] || IsSpace(s[0]) then 0 else 1 + TokenLength(s[1..])
  }

  /** A non-empty run of non-whitespace characters. */
  predicate IsWord(w: string) {
    w != [] && forall k :: 0 <= k < |w| ==> !IsSpace(w[k])
  }

  /** `s.split()`: the maximal runs of non-whitespace characters, in order. */
  function SplitWords(s: string): (words: seq<string>)
    ensures forall i :: 0 <= i < |words| ==> IsWord(words[i])
    decreases |s|
  {
    var t := LStrip(s);
    if t == [] then []
    else
      LeadingToken(t);
      var n := TokenLength(t);
      var rest := SplitWords(t[n..]);
      ConsWords(t[..n], rest);
      [t[..n]] + rest
  }

  /** Putting a word in front of a list of words gives a list of words. */
  lemma {:induction false} ConsWords(w: string, rest: seq<string>)
    requires IsWord(w)
    requires forall i :: 0 <= i < |rest| ==> IsWord(rest[i])
    ensures forall i :: 0 <= i < |rest| + 1 ==> IsWord(([w] + rest)[i])
  {
    forall i | 0 <= i < |rest| + 1 ensures IsWord(([w] + rest)[i]) {
      if i > 0 { assert ([w] + rest)[i] == rest[i - 1]; }
    }
  }

  /** Putting a string without `c` in front of strings without `c`. */
  lemma {:induction false} ConsAvoid(w: string, rest: seq<string>, c: char)
    requires c !in w
    requires forall i :: 0 <= i < |rest| ==> c !in rest[i]
    ensures forall i :: 0 <= i < |rest| + 1 ==> c !in ([w] + rest)[i]
  {
    forall i | 0 <= i < |rest| + 1 ensures c !in ([w] + rest)[i] {
      if i > 0 { assert ([w] + rest)[i] == rest[i - 1]; }
    }
  }

  /** A text that starts with a non-space starts with a word. */
  lemma {:induction false} LeadingToken(t: string)
    requires t != [] && !IsSpace(t[0])
    ensures 0 < TokenLength(t) && IsWord(t[..TokenLength(t)])
  {
  }

  /** A character missing from a text is missing from each of its slices. */
  lemma {:induction false} NotInSlice(s: string, c: char, a: nat, b: nat)
    requires c !in s && a <= b <= |s|
    ensures c !in s[a..b]
  {
  }

  /** A character that does not occur in `s` occurs in none of its words. */
  lemma {:induction false} SplitWordsAvoid(s: string, c: char)
    requires c !in s
    ensures forall i :: 0 <= i < |SplitWords(s)| ==> c !in SplitWords(s)[i]
    decreases |s|
  {
    var t := LStrip(s);
    if t != [] {
      var n := TokenLength(t);
      assert c !in t by {
        LStripSuffix(s);
        NotInSlice(s, c, |s| - |t|, |s|);
      }
      assert c !in t[..n] && c !in t[n..] by {
        NotInSlice(t, c, 0, n);
        NotInSlice(t, c, n, |t|);
        assert t[0..n] == t[..n] && t[n..|t|] == t[n..];
      }
      SplitWordsAvoid(t[n..], c);
      assert SplitWords(s) == [t[..n]] + SplitWords(t[n..]);
      ConsAvoid(t[..n], SplitWords(t[n..]), c);
    }
  }

  /** `split()` takes a leading word whole when whitespace or the end follows it. */
  lemma {:induction false} SplitWordsCons(w: string, rest: string)
    requires IsWord(w)
    requires rest == [] || IsSpace(rest[0])
    ensures SplitWords(w + rest) == [w] + SplitWords(rest)
  {
    var s := w + rest;
    assert s[0] == w[0];
    assert LStrip(s) == s;
    var n := TokenLength(s);
    assert forall k :: 0 <= k < |w| ==> s[k] == w[k];
    assert rest != [] ==> s[|w|] == rest[0];
    assert n == |w|;
    assert s[..n] == w && s[n..] == rest;
  }

  /** `split()` ignores a leading whitespace character. */
  lemma {:induction false} SplitWordsSkipSpace(c: char, rest: string)
    requires IsSpace(c)
    ensures SplitWords([c] + rest) == SplitWords(rest)
  {
    assert ([c] + rest)[1..] == rest;
    assert LStrip([c] + rest) == LStrip(rest);
  }

  /** `s.find(c, start)`: the first index at or after `start` holding `c`, or -1. */
  function Find(s: string, c: char, start: nat): (r: int)
    ensures r == -1 || (start <= r < |s| && s[r] == c)
    ensures r == -1 <==> forall i :: start <= i < |s| ==> s[i] != c
    ensures r != -1 ==> forall i :: start <= i < r ==> s[i] != c
    decreases |s| - start
  {
    if start >= |s| then -1 else if s[start] == c then start else Find(s, c, start + 1)
  }

  /** The last position of `x` in `s`, or -1: the index a dict comprehension
      `{name: i for i, name in enumerate(s)}` keeps for `x`. */
  function LastIndexOf<T(==)>(s: seq<T>, x: T): (r: int)
    ensures r == -1 || (0 <= r < |s| && s[r] == x)
    ensures forall i :: r < i < |s| ==> s[i] != x
  {
    if s == [] then -1 else if s[|s| - 1] == x then |s| - 1 else LastIndexOf(s[..|s| - 1], x)
  }

  /** `sep.join(parts)`. */
  function Join(sep: char, parts: seq<string>): string {
    if parts == [] then [] else if |parts| == 1 then parts[0] else parts[0] + [sep] + Join(sep, parts[1..])
  }

  /** `s.split(sep)` for a one-character separator: never empty, no piece holds
      `sep`, and joining the pieces back with `sep` gives `s`. */
  function SplitOn(s: string, sep: char): (parts: seq<string>)
    ensures |parts| >= 1
    ensures forall i :: 0 <= i < |parts| ==> sep !in parts[i]
  {
    if s == [] then [[]]
    else
      var rest := SplitOn(s[1..], sep);
      if s[0] == sep then [[]] + rest else [[s[0]] + rest[0]] + rest[1..]
  }

  /** Joining the pieces of `s.split(sep)` with `sep` gives `s` back. */
  lemma {:induction false} JoinSplitOn(s: string, sep: char)
    ensures Join(sep, SplitOn(s, sep)) == s
  {
    if s != [] {
      var rest := SplitOn(s[1..], sep);
      JoinSplitOn(s[1..], sep);
      if s[0] == sep {
        assert ([[]] + rest)[1..] == rest;
      } else {
        var parts := [[s[0]] + rest[0]] + rest[1..];
        if |rest| == 1 {
          assert parts == [[s[0]] + rest[0]];
        } else {
          assert parts[1..] == rest[1..];
          assert Join(sep, rest) == rest[0] + [sep] + Join(sep, rest[1..]);
        }
      }
      assert [s[0]] + s[1..] == s;
    }
  }

  /** A prefix without the separator glues onto the first piece of what follows. */
  lemma {:induction false} SplitOnPrefix(a: string, b: string, sep: char)
    requires sep !in a
    ensures SplitOn(a + b, sep) == [a + SplitOn(b, sep)[0]] + SplitOn(b, sep)[1..]
  {
    if a == [] {
      assert a + b == b;
      var parts := SplitOn(b, sep);
      assert a + parts[0] == parts[0];
      assert [parts[0]] + parts[1..] == parts;
    } else {
      assert (a + b)[0] == a[0] && (a + b)[1..] == a[1..] + b;
      SplitOnPrefix(a[1..], b, sep);
      assert [a[0]] + (a[1..] + SplitOn(b, sep)[0]) == a + SplitOn(b, sep)[0];
    }
  }

  /** Splitting undoes joining, provided no piece holds the separator. */
  lemma {:induction false} SplitOnJoin(parts: seq<string>, sep: char)
    requires |parts| >= 1
    requires forall i :: 0 <= i < |parts| ==> sep !in parts[i]
    ensures SplitOn(Join(sep, parts), sep) == parts
  {
    if |parts| == 1 {
      SplitOnPrefix(parts[0], [], sep);
      assert parts[0] + [] == parts[0];
    } else {
      var rest := Join(sep, parts[1..]);
      SplitOnJoin(parts[1..], sep);
      assert parts[0] + [sep] + rest == parts[0] + ([sep] + rest);
      assert Join(sep, parts) == parts[0] + ([sep] + rest);
      SplitOnPrefix(parts[0], [sep] + rest, sep);
      assert ([sep] + rest)[1..] == rest;
      assert SplitOn([sep] + rest, sep) == [[]] + parts[1..];
      assert parts[0] + [] == parts[0];
      assert parts == [parts[0]] + parts[1..];
    }
  }

  /** `c.lower()` for the characters whose lower case is again one character
      and whose upper/lower pairing is simple: ASCII A-Z, Latin-1 capitals and
      the Kelvin sign (whose lower case is the ASCII `k`). */
  function LowerChar(c: char): (l: char)
    ensures ('A' <= c <= 'Z') ==> l as int == c as int + 32
    ensures !('A' <= c <= 'Z') && c != '\U{212A}' ==> (l < '\U{80}' <==> c < '\U{80}')
  {
    if 'A' <= c <= 'Z' then (c as int + 32) as char
    else if '\U{C0}' <= c <= '\U{DE}' && c != '\U{D7}' then (c as int + 32) as char
    else if c == '\U{212A}' then 'k'
    else c
  }

  /** `s.lower()`, character by character. */
  function Lower(s: string): (r: string)
    ensures |r| == |s|
  {
    if s == [] then [] else [LowerChar(s[0])] + Lower(s[1..])
  }

  /** Each character of `s.lower()` is the lower-case form of the character
      at the same position of `s`. */
  lemma {:induction false} LowerAt(s: string)
    ensures forall i :: 0 <= i < |s| ==> Lower(s)[i] == LowerChar(s[i])
  {
    if s != [] {
      LowerAt(s[1..]);
      assert forall i :: 1 <= i < |s| ==> Lower(s)[i] == Lower(s[1..])[i - 1];
    }
  }

  /** Lower-casing a lower-cased character changes nothing. */
  lemma {:induction false} LowerCharIdempotent(c: char)
    ensures LowerChar(LowerChar(c)) == LowerChar(c)
  {
  }

  /** Lower-casing twice is lower-casing once. */
  lemma {:induction false} LowerIdempotent(s: string)
    ensures Lower(Lower(s)) == Lower(s)
  {
    LowerAt(s);
    LowerAt(Lower(s));
    forall i | 0 <= i < |s|
      ensures Lower(Lower(s))[i] == Lower(s)[i]
    {
      LowerCharIdempotent(s[i]);
    }
  }
}
