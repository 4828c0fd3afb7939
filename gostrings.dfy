/** The parts of Go's `strings` package that the Content-Type parser uses,
    on strings taken as sequences of Unicode code points. */
module GoStrings {

  /** `unicode.IsSpace`: the Unicode White_Space property. */
  predicate IsSpace(c: char) {
    || ('\t' <= c <= '\r')   // tab, line feed, vertical tab, form feed, carriage return
    || c == ' '
    || c == '\U{85}' || c == '\U{A0}' || c == '\U{1680}'
    || ('\U{2000}' <= c <= '\U{200A}')
    || c == '\U{2028}' || c == '\U{2029}' || c == '\U{202F}' || c == '\U{205F}'
    || c == '\U{3000}'
  }

  /** Neither the first nor the last character is white space. */
  predicate Trimmed(s: string) {
    s == [] || (!IsSpace(s[0]) && !IsSpace(s[|s| - 1]))
  }

  /** The first position at or after `lo` that does not hold white space,
      or `|s|`. */
  function TextStart(s: string, lo: nat): (b: nat)
    requires lo <= |s|
    ensures lo <= b <= |s|
    ensures b < |s| ==> !IsSpace(s[b])
    decreases |s| - lo
  {
    if lo == |s| || !IsSpace(s[lo]) then lo else TextStart(s, lo + 1)
  }

  /** The position just after the last character before `hi` and at or
      after `lo` that is not white space, or `lo`. */
  function TextEnd(s: string, lo: nat, hi: nat): (e: nat)
    requires lo <= hi <= |s|
    ensures lo <= e <= hi
    ensures e > lo ==> !IsSpace(s[e - 1])
    decreases hi
  {
    if hi == lo || !IsSpace(s[hi - 1]) then hi else TextEnd(s, lo, hi - 1)
  }

  /** Everything `TextStart` skips is white space. */
  lemma {:induction false} TextStartSkipsSpace(s: string, lo: nat)
    requires lo <= |s|
    ensures forall k :: lo <= k < TextStart(s, lo) ==> IsSpace(s[k])
    decreases |s| - lo
  {
    if lo < |s| && IsSpace(s[lo]) {
      TextStartSkipsSpace(s, lo + 1);
    }
  }

  /** Everything `TextEnd` skips is white space. */
  lemma {:induction false} TextEndSkipsSpace(s: string, lo: nat, hi: nat)
    requires lo <= hi <= |s|
    ensures forall k :: TextEnd(s, lo, hi) <= k < hi ==> IsSpace(s[k])
    decreases hi
  {
    if hi > lo && IsSpace(s[hi - 1]) {
      TextEndSkipsSpace(s, lo, hi - 1);
    }
  }

  /** `strings.TrimSpace`: `s` without its leading and trailing white space.
      The result is trimmed and is a slice of `s`. */
  function TrimSpace(s: string): (r: string)
    ensures Trimmed(r)
    ensures |r| <= |s|
  {
    var b := TextStart(s, 0);
    var e := TextEnd(s, b, |s|);
    assert e > b ==> s[b..e][0] == s[b] && s[b..e][e - b - 1] == s[e - 1];
    s[b..e]
  }

  /** What `strings.TrimSpace` drops is exactly the white space around the
      first and last characters that are not white space. */
  lemma TrimSpaceDropsSpace(s: string)
    ensures var b := TextStart(s, 0);
      && TrimSpace(s) == s[b..b + |TrimSpace(s)|]
      && (forall k :: 0 <= k < b ==> IsSpace(s[k]))
      && (forall k :: b + |TrimSpace(s)| <= k < |s| ==> IsSpace(s[k]))
  {
    var b := TextStart(s, 0);
    TextStartSkipsSpace(s, 0);
    TextEndSkipsSpace(s, b, |s|);
  }

  /** A character absent from a string is absent from each of its slices. */
  lemma SliceExcludes(s: string, i: nat, j: nat, c: char)
    requires i <= j <= |s| && c !in s
    ensures c !in s[i..j]
  {
    forall k | 0 <= k < j - i
      ensures s[i..j][k] != c
    {
      assert s[i..j][k] == s[i + k];
    }
  }

  /** Trimming never introduces a character. */
  lemma TrimSpaceExcludes(s: string, c: char)
    requires c !in s
    ensures c !in TrimSpace(s)
  {
    var b := TextStart(s, 0);
    SliceExcludes(s, b, TextEnd(s, b, |s|), c);
  }

  /** A character that is not white space survives trimming. */
  lemma TrimSpaceKeeps(s: string, c: char)
    requires c in s && !IsSpace(c)
    ensures c in TrimSpace(s)
  {
    var i :| 0 <= i < |s| && s[i] == c;
    var b := TextStart(s, 0);
    var e := TextEnd(s, b, |s|);
    TextStartSkipsSpace(s, 0);
    TextEndSkipsSpace(s, b, |s|);
    assert b <= i < e;
    assert s[b..e][i - b] == c;
  }

  /** The first position at or after `lo` that holds `c`, or `|s|`
      (`strings.Index`, which reports -1 where this gives `|s|`). */
  function IndexFrom(s: string, c: char, lo: nat): (i: nat)
    requires lo <= |s|
    ensures lo <= i <= |s|
    ensures i < |s| ==> s[i] == c
    decreases |s| - lo
  {
    if lo == |s| || s[lo] == c then lo else IndexFrom(s, c, lo + 1)
  }

  /** `IndexFrom` passes over no `c`. */
  lemma {:induction false} IndexFromSkips(s: string, c: char, lo: nat)
    requires lo <= |s|
    ensures forall k :: lo <= k < IndexFrom(s, c, lo) ==> s[k] != c
    decreases |s| - lo
  {
    if lo < |s| && s[lo] != c {
      IndexFromSkips(s, c, lo + 1);
    }
  }

  /** A slice that no `c` falls into holds no `c`. */
  lemma SliceWithout(s: string, i: nat, j: nat, c: char)
    requires i <= j <= |s|
    requires forall k :: i <= k < j ==> s[k] != c
    ensures c !in s[i..j]
  {
    forall k | 0 <= k < j - i
      ensures s[i..j][k] != c
    {
      assert s[i..j][k] == s[i + k];
    }
  }

  /** Concatenates `parts` with `sep` between consecutive parts
      (`strings.Join`). */
  function Join(parts: seq<string>, sep: char): string
    requires |parts| >= 1
  {
    if |parts| == 1 then parts[0] else parts[0] + [sep] + Join(parts[1..], sep)
  }

  /** The pieces of `s[lo..]` between the occurrences of `sep`. */
  function SplitFrom(s: string, sep: char, lo: nat): (parts: seq<string>)
    requires lo <= |s|
    ensures |parts| >= 1
    decreases |s| - lo
  {
    var i := IndexFrom(s, sep, lo);
    if i == |s| then [s[lo..]]
    else [s[lo..i]] + SplitFrom(s, sep, i + 1)
  }

  /** `strings.Split(s, sep)`: the pieces of `s` between the occurrences of
      `sep`; there is always at least one (`Split("", sep) == [""]`). */
  function Split(s: string, sep: char): (parts: seq<string>)
    ensures |parts| >= 1
  {
    SplitFrom(s, sep, 0)
  }

  /** No piece of `s[lo..]` holds `sep`. */
  lemma {:induction false} SplitFromExcludes(s: string, sep: char, lo: nat)
    requires lo <= |s|
    ensures forall j :: 0 <= j < |SplitFrom(s, sep, lo)| ==> sep !in SplitFrom(s, sep, lo)[j]
    decreases |s| - lo
  {
    var i := IndexFrom(s, sep, lo);
    IndexFromSkips(s, sep, lo);
    SliceWithout(s, lo, i, sep);
    if i < |s| {
      SplitFromExcludes(s, sep, i + 1);
      var rest := SplitFrom(s, sep, i + 1);
      assert SplitFrom(s, sep, lo) == [s[lo..i]] + rest;
      forall j | 1 <= j < |rest| + 1
        ensures ([s[lo..i]] + rest)[j] == rest[j - 1]
      {
      }
    }
  }

  /** No piece of the split string holds the separator. */
  lemma SplitExcludes(s: string, sep: char)
    ensures forall j :: 0 <= j < |Split(s, sep)| ==> sep !in Split(s, sep)[j]
  {
    SplitFromExcludes(s, sep, 0);
  }

  /** Joining a first part in front of further parts. */
  lemma JoinCons(first: string, rest: seq<string>, sep: char)
    requires |rest| >= 1
    ensures Join([first] + rest, sep) == first + [sep] + Join(rest, sep)
  {
    assert ([first] + rest)[1..] == rest;
  }

  /** Joining the pieces of `s[lo..]` gives back `s[lo..]`. */
  lemma {:induction false} SplitFromJoin(s: string, sep: char, lo: nat)
    requires lo <= |s|
    ensures Join(SplitFrom(s, sep, lo), sep) == s[lo..]
    decreases |s| - lo
  {
    var i := IndexFrom(s, sep, lo);
    if i < |s| {
      var rest := SplitFrom(s, sep, i + 1);
      assert SplitFrom(s, sep, lo) == [s[lo..i]] + rest;
      SplitFromJoin(s, sep, i + 1);
      JoinCons(s[lo..i], rest, sep);
      SliceAround(s, lo, i);
    }
  }

  /** A suffix of `s` is the text before position `i`, the character at `i`
      and the text after it. */
  lemma SliceAround(s: string, lo: nat, i: nat)
    requires lo <= i < |s|
    ensures s[lo..] == s[lo..i] + [s[i]] + s[i + 1..]
  {
  }

  /** Splitting and joining again gives back the original string. */
  lemma SplitJoin(s: string, sep: char)
    ensures Join(Split(s, sep), sep) == s
  {
    SplitFromJoin(s, sep, 0);
    assert s[0..] == s;
  }

  /** `strings.SplitN(s, sep, 2)`: `s` cut at its first `sep` into two
      pieces, or `[s]` when `sep` does not occur. */
  function SplitOnce(s: string, sep: char): (parts: seq<string>)
    ensures |parts| == 1 || |parts| == 2
    ensures |parts| == 2 <==> sep in s
    ensures |parts| == 1 ==> parts[0] == s
    ensures |parts| == 2 ==> sep !in parts[0] && parts[0] + [sep] + parts[1] == s
  {
    var i := IndexFrom(s, sep, 0);
    IndexFromSkips(s, sep, 0);
    SliceWithout(s, 0, i, sep);
    if i < |s| then
      assert s == s[..i] + [sep] + s[i + 1..];
      [s[..i], s[i + 1..]]
    else
      assert s[0..i] == s;
      [s]
  }
}
