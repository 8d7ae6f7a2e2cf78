/**
 * `clean_text_for_spam`: every run of whitespace becomes one space
 * (`re.sub(r"\s+", " ", text)`), then the ends are trimmed (`str.strip()`).
 * The lemmas show that this is the same as `" ".join(text.split())`, the
 * collapse `predict_pdf` applies again to the preprocessed text, and derive
 * the shape, idempotence and blank-input properties from that.
 */
module Normalizer {
  import opened Strings

  /** `re.sub(r"\s+", " ", s)`: scanning left to right, each maximal run of
      whitespace characters is replaced by a single space. */
  function SubstituteWhitespaceRuns(s: string): (r: string)
    ensures |r| <= |s|
    ensures r == [] <==> s == []
    decreases |s|
  {
    if s == [] then []
    else if IsSpace(s[0]) then " " + SubstituteWhitespaceRuns(TrimLeft(s, IsSpace))
    else [s[0]] + SubstituteWhitespaceRuns(s[1..])
  }

  /** `clean_text_for_spam(text)`. */
  function CleanText(text: string): string {
    Strip(SubstituteWhitespaceRuns(text), IsSpace)
  }

  /** Characters outside whitespace runs are copied as they are. */
  lemma {:induction false} SubstituteWordPrefix(w: string, rest: string)
    requires forall k :: 0 <= k < |w| ==> !IsSpace(w[k])
    ensures SubstituteWhitespaceRuns(w + rest) == w + SubstituteWhitespaceRuns(rest)
    decreases |w|
  {
    if w != [] {
      assert (w + rest)[0] == w[0] && !IsSpace(w[0]);
      assert (w + rest)[1..] == w[1..] + rest;
      assert SubstituteWhitespaceRuns(w + rest)
        == [w[0]] + SubstituteWhitespaceRuns(w[1..] + rest);
      SubstituteWordPrefix(w[1..], rest);
      assert [w[0]] + w[1..] == w;
    } else {
      assert w + rest == rest;
    }
  }

  /** On a string that does not begin with whitespace, the substitution gives
      the words joined by single spaces, followed by at most one space. */
  lemma {:induction false} SubstituteFromWord(s: string)
    requires s == [] || !IsSpace(s[0])
    ensures var j := Join(" ", Split(s));
      SubstituteWhitespaceRuns(s) == j || SubstituteWhitespaceRuns(s) == j + " "
    decreases |s|
  {
    if s != [] {
      var n := WordLength(s);
      var w, rest := s[..n], s[n..];
      assert Split(s) == [w] + Split(rest) by {
        SplitFromWord(s);
      }
      assert SubstituteWhitespaceRuns(s) == w + SubstituteWhitespaceRuns(rest) by {
        assert s == w + rest;
        SubstituteWordPrefix(w, rest);
      }
      if rest == [] {
        assert Split(s) == [w];
        assert w + SubstituteWhitespaceRuns(rest) == w;
      } else {
        var u := TrimLeft(rest, IsSpace);
        assert |u| < |s| && (u == [] || !IsSpace(u[0]));
        assert SubstituteWhitespaceRuns(rest) == " " + SubstituteWhitespaceRuns(u) by {
          assert rest[0] == s[n];
        }
        assert Split(rest) == Split(u) by {
          SplitSkipsLeadingSpace(rest);
        }
        var su, ju := SubstituteWhitespaceRuns(u), Join(" ", Split(u));
        assert su == ju || su == ju + " " by {
          SubstituteFromWord(u);
        }
        WordThenSubstituted(w, Split(u), su, ju);
      }
    }
  }

  /** The step of `SubstituteFromWord` once the first word is split off. */
  lemma WordThenSubstituted(w: string, ws: seq<string>, su: string, ju: string)
    requires ju == Join(" ", ws)
    requires su == ju || su == ju + " "
    requires ws == [] ==> su == []
    ensures var j := Join(" ", [w] + ws);
      w + (" " + su) == j || w + (" " + su) == j + " "
  {
    if ws == [] {
      assert [w] + ws == [w];
    } else {
      JoinCons(w, ws);
    }
  }

  /** `str.split()` on a string that begins with a word. */
  lemma SplitFromWord(s: string)
    requires s != [] && !IsSpace(s[0])
    ensures Split(s) == [s[..WordLength(s)]] + Split(s[WordLength(s)..])
  {
    assert TrimLeft(s, IsSpace) == s;
  }

  /** `sep.join` puts the separator after the first of two or more words. */
  lemma JoinCons(w: string, ws: seq<string>)
    requires ws != []
    ensures Join(" ", [w] + ws) == w + " " + Join(" ", ws)
  {
    assert ([w] + ws)[1..] == ws;
  }

  /** `str.strip()` removes one space of padding on either side of a string
      that neither begins nor ends with whitespace, and nothing more. */
  lemma StripPadded(lead: string, j: string, trail: string)
    requires lead == "" || lead == " "
    requires trail == "" || trail == " "
    requires j == [] || (!IsSpace(j[0]) && !IsSpace(j[|j| - 1]))
    ensures Strip(lead + j + trail, IsSpace) == j
  {
    assert lead + j + trail == lead + (j + trail);
    TrimLeftPadding(lead, j + trail);
    if j == [] {
      assert j + trail == trail;
    } else {
      assert TrimLeft(j + trail, IsSpace) == j + trail by {
        assert (j + trail)[0] == j[0];
      }
      TrimRightPadding(j, trail);
    }
  }

  /** `lstrip()` passes over a leading space. */
  lemma TrimLeftPadding(pad: string, y: string)
    requires pad == "" || pad == " "
    ensures TrimLeft(pad + y, IsSpace) == TrimLeft(y, IsSpace)
  {
    if pad == " " {
      assert (pad + y)[1..] == y;
    } else {
      assert pad + y == y;
    }
  }

  /** `rstrip()` passes over a trailing space. */
  lemma TrimRightPadding(y: string, pad: string)
    requires pad == "" || pad == " "
    ensures TrimRight(y + pad, IsSpace) == TrimRight(y, IsSpace)
  {
    if pad == " " {
      assert (y + pad)[..|y|] == y;
    } else {
      assert y + pad == y;
    }
  }

  /** Reference definition: `clean_text_for_spam(s)` equals
      `" ".join(s.split())`. */
  lemma CleanIsSplitJoin(s: string)
    ensures CleanText(s) == Join(" ", Split(s))
  {
    var lead, trail := SubstitutePadded(s);
    JoinWordsCollapsed(Split(s));
    StripPadded(lead, Join(" ", Split(s)), trail);
  }

  /** The substitution gives the words joined by single spaces, with at most
      one space before and one after. */
  lemma SubstitutePadded(s: string) returns (lead: string, trail: string)
    ensures lead == "" || lead == " "
    ensures trail == "" || trail == " "
    ensures SubstituteWhitespaceRuns(s) == lead + Join(" ", Split(s)) + trail
  {
    var t := TrimLeft(s, IsSpace);
    var j := Join(" ", Split(s));
    lead := if s != [] && IsSpace(s[0]) then " " else "";
    var st := SubstituteWhitespaceRuns(t);
    trail := if st == j then "" else " ";
    assert SubstituteWhitespaceRuns(s) == lead + st by {
      SubstituteLeadingSpace(s);
    }
    assert st == j + trail by {
      SplitSkipsLeadingSpace(s);
      SubstituteFromWord(t);
      assert j + "" == j;
    }
    assert lead + (j + trail) == lead + j + trail;
  }

  /** A leading run of whitespace becomes one space. */
  lemma SubstituteLeadingSpace(s: string)
    ensures var lead := if s != [] && IsSpace(s[0]) then " " else "";
      SubstituteWhitespaceRuns(s) == lead + SubstituteWhitespaceRuns(TrimLeft(s, IsSpace))
  {
    if s == [] || !IsSpace(s[0]) {
      assert TrimLeft(s, IsSpace) == s;
    }
  }

  /** The cleaned text has no whitespace at either end, no whitespace but
      plain spaces, and no two whitespace characters in a row. */
  lemma CleanCollapsed(s: string)
    ensures IsCollapsed(CleanText(s))
  {
    CleanIsSplitJoin(s);
    JoinWordsCollapsed(Split(s));
  }

  /** Cleaning keeps every word, in order: the cleaned text splits into
      exactly the words of the input. */
  lemma CleanKeepsWords(s: string)
    ensures Split(CleanText(s)) == Split(s)
  {
    CleanIsSplitJoin(s);
    SplitJoin(Split(s));
  }

  /** Cleaning twice is cleaning once. */
  lemma CleanIdempotent(s: string)
    ensures CleanText(CleanText(s)) == CleanText(s)
  {
    CleanIsSplitJoin(CleanText(s));
    CleanKeepsWords(s);
    CleanIsSplitJoin(s);
  }

  /** The cleaned text is empty exactly when the input is all whitespace,
      the empty string included. */
  lemma CleanBlank(s: string)
    ensures CleanText(s) == "" <==> forall k :: 0 <= k < |s| ==> IsSpace(s[k])
  {
    CleanIsSplitJoin(s);
    JoinWordsCollapsed(Split(s));
    SplitEmptyIffBlank(s);
  }
}
