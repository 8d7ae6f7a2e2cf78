/**
 * The handful of Python `str` built-ins the spam pipeline relies on, over
 * strings as sequences of characters: the whitespace test shared by `\s` in
 * a `re` pattern and by `str.isspace`, the `string.punctuation` set,
 * `str.strip`, `str.split()` with no argument, `str.join` and the slice
 * `s[:n]`.
 */
module Strings {

  /** `str.isspace()` of one character, which is also what `\s` matches in a
      `str` pattern: the ASCII controls TAB..CR and FS..US, the space, NEL,
      NBSP and the Unicode separators. */
  predicate IsSpace(c: char) {
    var n := c as int;
    (9 <= n <= 13) || (28 <= n <= 32) || n == 0x85 || n == 0xA0 || n == 0x1680 ||
    (0x2000 <= n <= 0x200A) || n == 0x2028 || n == 0x2029 || n == 0x202F ||
    n == 0x205F || n == 0x3000
  }

  /** Membership in `string.punctuation`: the 32 ASCII characters
      !"#$%&'()*+,-./:;<=>?@[\]^_`{|}~ */
  predicate IsPunctuation(c: char) {
    var n := c as int;
    (33 <= n <= 47) || (58 <= n <= 64) || (91 <= n <= 96) || (123 <= n <= 126)
  }

  /** `s.lstrip(chars)`: drops the longest prefix of `s` whose characters all
      satisfy `p` (`TrimLeftSpec` gives the full characterisation). */
  function TrimLeft(s: string, p: char -> bool): (r: string)
    ensures |r| <= |s|
    ensures s != [] && p(s[0]) ==> |r| < |s|
    ensures r == [] || !p(r[0])
    decreases |s|
  {
    if s == [] || !p(s[0]) then s else TrimLeft(s[1..], p)
  }

  /** `s.rstrip(chars)`: drops the longest suffix of `s` whose characters all
      satisfy `p`. */
  function TrimRight(s: string, p: char -> bool): (r: string)
    ensures |r| <= |s|
    ensures r == [] || !p(r[|r| - 1])
    decreases |s|
  {
    if s == [] || !p(s[|s| - 1]) then s else TrimRight(s[..|s| - 1], p)
  }

  /** `s.strip(chars)` (with `p == IsSpace`, plain `s.strip()`). */
  function Strip(s: string, p: char -> bool): (r: string)
    ensures |r| <= |s|
    ensures r == [] || (!p(r[0]) && !p(r[|r| - 1]))
  {
    var t := TrimLeft(s, p);
    TrimRightSpec(t, p);
    TrimRight(t, p)
  }

  /** What `lstrip` leaves is a suffix of `s`, and everything it dropped
      satisfies `p`. */
  lemma {:induction false} TrimLeftSpec(s: string, p: char -> bool)
    ensures var r := TrimLeft(s, p);
      r == s[|s| - |r|..] && forall k :: 0 <= k < |s| - |r| ==> p(s[k])
    decreases |s|
  {
    if s != [] && p(s[0]) {
      TrimLeftSpec(s[1..], p);
      var r := TrimLeft(s, p);
      assert s[1..][|s| - 1 - |r|..] == s[|s| - |r|..];
      forall k | 0 <= k < |s| - |r| ensures p(s[k]) {
        if k > 0 { assert s[k] == s[1..][k - 1]; }
      }
    }
  }

  /** What `rstrip` leaves is a prefix of `s`, and everything it dropped
      satisfies `p`. */
  lemma {:induction false} TrimRightSpec(s: string, p: char -> bool)
    ensures var r := TrimRight(s, p);
      r == s[..|r|] && forall k :: |r| <= k < |s| ==> p(s[k])
    decreases |s|
  {
    if s != [] && p(s[|s| - 1]) {
      TrimRightSpec(s[..|s| - 1], p);
      var r := TrimRight(s, p);
      assert s[..|s| - 1][..|r|] == s[..|r|];
      forall k | |r| <= k < |s| ensures p(s[k]) {
        if k < |s| - 1 { assert s[k] == s[..|s| - 1][k]; }
      }
    }
  }

  /** `strip` keeps a slice of `s` that neither begins nor ends with a
      character satisfying `p`; everything around that slice satisfies `p`;
      the result is empty exactly when every character of `s` does. */
  lemma StripSpec(s: string, p: char -> bool)
    ensures var r, lo := Strip(s, p), |s| - |TrimLeft(s, p)|;
      lo + |r| <= |s| && r == s[lo..lo + |r|] &&
      (forall k :: 0 <= k < lo ==> p(s[k])) &&
      (forall k :: lo + |r| <= k < |s| ==> p(s[k])) &&
      (r == [] || (!p(r[0]) && !p(r[|r| - 1]))) &&
      (r == [] <==> forall k :: 0 <= k < |s| ==> p(s[k]))
  {
    var t := TrimLeft(s, p);
    var r := TrimRight(t, p);
    var lo := |s| - |t|;
    TrimLeftSpec(s, p);
    TrimRightSpec(t, p);
    forall k | lo + |r| <= k < |s| ensures p(s[k]) {
      assert s[k] == t[k - lo];
    }
    assert r == s[lo..lo + |r|];
  }

  /** A word of `str.split()`: non-empty and free of whitespace. */
  predicate IsWord(w: string) {
    w != [] && forall k :: 0 <= k < |w| ==> !IsSpace(w[k])
  }

  predicate AllWords(ws: seq<string>) {
    forall i :: 0 <= i < |ws| ==> IsWord(ws[i])
  }

  /** Length of the longest whitespace-free prefix of `t`. */
  function WordLength(t: string): (n: nat)
    ensures n <= |t|
    ensures forall k :: 0 <= k < n ==> !IsSpace(t[k])
    ensures n == |t| || IsSpace(t[n])
  {
    if t == [] || IsSpace(t[0]) then 0 else 1 + WordLength(t[1..])
  }

  /** `s.split()`: the maximal runs of non-whitespace characters, in order. */
  function Split(s: string): (ws: seq<string>)
    ensures AllWords(ws)
    decreases |s|
  {
    var t := TrimLeft(s, IsSpace);
    if t == [] then []
    else
      var n := WordLength(t);
      [t[..n]] + Split(t[n..])
  }

  /** `sep.join(ws)`. */
  function Join(sep: string, ws: seq<string>): string
    decreases |ws|
  {
    if |ws| == 0 then ""
    else if |ws| == 1 then ws[0]
    else ws[0] + sep + Join(sep, ws[1..])
  }

  /** `s[:n]`: Python clamps the bound to the length of `s`. */
  function Take(s: string, n: nat): (r: string)
    ensures |r| == if |s| <= n then |s| else n
    ensures r == s[..|r|]
  {
    if |s| <= n then s else s[..n]
  }

  /** A string in the shape `" ".join(words)` produces: no whitespace at
      either end, no whitespace other than the plain space, and never two
      whitespace characters side by side. */
  predicate IsCollapsed(t: string) {
    (t == [] || (!IsSpace(t[0]) && !IsSpace(t[|t| - 1]))) &&
    (forall k :: 0 <= k < |t| && IsSpace(t[k]) ==> t[k] == ' ') &&
    (forall k :: 0 <= k < |t| - 1 && IsSpace(t[k]) ==> !IsSpace(t[k + 1]))
  }

  /** `str.split()` yields nothing exactly when the string is all whitespace
      (the empty string included). */
  lemma SplitEmptyIffBlank(s: string)
    ensures Split(s) == [] <==> forall k :: 0 <= k < |s| ==> IsSpace(s[k])
  {
    var t := TrimLeft(s, IsSpace);
    assert Split(s) == [] <==> t == [];
    if t == [] {
      TrimLeftSpec(s, IsSpace);
    } else {
      assert !IsSpace(s[|s| - |t|]) by {
        TrimLeftSpec(s, IsSpace);
        assert s[|s| - |t|] == t[0];
      }
    }
  }

  /** Leading whitespace does not change what `str.split()` returns. */
  lemma SplitSkipsLeadingSpace(s: string)
    ensures Split(s) == Split(TrimLeft(s, IsSpace))
  {
    var t := TrimLeft(s, IsSpace);
    assert TrimLeft(t, IsSpace) == t;
  }

  /** Joining words with one space gives a collapsed string, empty exactly
      when there are no words, beginning with the first word and ending with
      the last. */
  lemma {:induction false} JoinWordsCollapsed(ws: seq<string>)
    requires AllWords(ws)
    ensures IsCollapsed(Join(" ", ws))
    ensures Join(" ", ws) == [] <==> ws == []
    ensures ws != [] ==> Join(" ", ws)[0] == ws[0][0]
    ensures ws != [] ==> Join(" ", ws)[|Join(" ", ws)| - 1] == ws[|ws| - 1][|ws[|ws| - 1]| - 1]
    decreases |ws|
  {
    if |ws| >= 2 {
      var w, rest := ws[0], Join(" ", ws[1..]);
      JoinWordsCollapsed(ws[1..]);
      var t := w + " " + rest;
      assert Join(" ", ws) == t;
      forall k | 0 <= k < |t| - 1 && IsSpace(t[k]) ensures !IsSpace(t[k + 1]) {
        if k > |w| {
          assert t[k] == rest[k - |w| - 1] && t[k + 1] == rest[k - |w|];
        }
      }
      forall k | 0 <= k < |t| && IsSpace(t[k]) ensures t[k] == ' ' {
        if k > |w| {
          assert t[k] == rest[k - |w| - 1];
        }
      }
    }
  }

  /** `str.split()` peels a leading word off when whitespace or the end of
      the string follows it. */
  lemma SplitLeadingWord(w: string, rest: string)
    requires IsWord(w) && (rest == [] || IsSpace(rest[0]))
    ensures Split(w + rest) == [w] + Split(rest)
  {
    var s := w + rest;
    assert s[0] == w[0];
    assert TrimLeft(s, IsSpace) == s;
    WordLengthOfWord(w, rest);
    assert s[..|w|] == w && s[|w|..] == rest;
  }

  lemma WordLengthOfWord(w: string, rest: string)
    requires IsWord(w) && (rest == [] || IsSpace(rest[0]))
    ensures WordLength(w + rest) == |w|
  {
    var s := w + rest;
    assert forall k :: 0 <= k < |w| ==> s[k] == w[k];
    assert rest != [] ==> s[|w|] == rest[0];
  }

  /** Round trip: splitting words joined by single spaces gives the words
      back. */
  lemma {:induction false} SplitJoin(ws: seq<string>)
    requires AllWords(ws)
    ensures Split(Join(" ", ws)) == ws
    decreases |ws|
  {
    if |ws| == 1 {
      SplitLeadingWord(ws[0], []);
      assert ws[0] + [] == ws[0];
    } else if |ws| >= 2 {
      var w, rest := ws[0], Join(" ", ws[1..]);
      JoinWordsCollapsed(ws[1..]);
      SplitJoin(ws[1..]);
      assert Join(" ", ws) == w + (" " + rest);
      SplitLeadingWord(w, " " + rest);
      assert TrimLeft(" " + rest, IsSpace) == TrimLeft(rest, IsSpace) == rest by {
        assert (" " + rest)[1..] == rest;
      }
      SplitSkipsLeadingSpace(" " + rest);
    }
  }

  /** A collapsed string has nothing for `str.strip()` to remove. */
  lemma StripCollapsed(t: string)
    requires IsCollapsed(t)
    ensures Strip(t, IsSpace) == t
  {
    assert TrimLeft(t, IsSpace) == t;
    assert TrimRight(t, IsSpace) == t;
  }
}
