/** Whitespace normalisation: the regular-expression and strip stage of
    `clean_text` (app.py:29-42). The HTML tag stripping that precedes it is a
    call into an HTML library and is a parameter here. */
module TextNormalizer {
  import opened Wrappers

  /** A whitespace character in the sense of Python's `str.isspace`, which is
      also the set matched by `\s` in a `str` regular expression. */
  predicate IsSpace(c: char) {
    var n := c as int;
    (9 <= n <= 13) || (28 <= n <= 32) || n == 0x85 || n == 0xA0 || n == 0x1680
    || (0x2000 <= n <= 0x200A) || n == 0x2028 || n == 0x2029 || n == 0x202F
    || n == 0x205F || n == 0x3000
  }

  /** No whitespace at either end. */
  predicate Trimmed(s: string) {
    s == [] || (!IsSpace(s[0]) && !IsSpace(s[|s| - 1]))
  }

  /** Whitespace occurs only as single plain spaces. */
  predicate Collapsed(s: string) {
    && (forall i :: 0 <= i < |s| && IsSpace(s[i]) ==> s[i] == ' ')
    && (forall i :: 0 <= i < |s| - 1 ==> !(IsSpace(s[i]) && IsSpace(s[i + 1])))
  }

  /** What `clean_text` promises of its result. */
  predicate Normalized(s: string) {
    Trimmed(s) && Collapsed(s)
  }

  /** The characters of `s` that are not whitespace, in order. */
  function NonSpace(s: string): (r: string)
    ensures |r| <= |s|
    ensures forall i :: 0 <= i < |r| ==> !IsSpace(r[i])
  {
    if s == [] then []
    else if IsSpace(s[0]) then NonSpace(s[1..])
    else [s[0]] + NonSpace(s[1..])
  }

  /** `s.lstrip()`: the longest suffix of `s` that does not start with whitespace. */
  function LStrip(s: string): (r: string)
    ensures |r| <= |s| && r == s[|s| - |r|..]
    ensures forall i :: 0 <= i < |s| - |r| ==> IsSpace(s[i])
    ensures r == [] || !IsSpace(r[0])
  {
    if s == [] || !IsSpace(s[0]) then s else LStrip(s[1..])
  }

  /** `s.rstrip()`: the longest prefix of `s` that does not end with whitespace. */
  function RStrip(s: string): (r: string)
    ensures |r| <= |s| && r == s[..|r|]
    ensures forall i :: |r| <= i < |s| ==> IsSpace(s[i])
    ensures r == [] || !IsSpace(r[|r| - 1])
  {
    if s == [] || !IsSpace(s[|s| - 1]) then s else RStrip(s[..|s| - 1])
  }

  /** `s.strip()`. */
  function Strip(s: string): (r: string)
    ensures Trimmed(r)
  {
    RStrip(LStrip(s))
  }

  /** `r` is the slice of `s` starting at `i`, and everything around it is
      whitespace. */
  predicate Surrounds(s: string, i: int, r: string) {
    && 0 <= i && i + |r| <= |s| && s[i..i + |r|] == r
    && (forall j :: 0 <= j < i ==> IsSpace(s[j]))
    && (forall j :: i + |r| <= j < |s| ==> IsSpace(s[j]))
  }

  /** `re.sub(r'\s+', ' ', s)`: every maximal run of whitespace becomes one space. */
  function Collapse(s: string): (r: string)
    ensures |r| <= |s|
    ensures Collapsed(r)
    ensures NonSpace(r) == NonSpace(s)
    ensures r == [] <==> s == []
    ensures r != [] ==> (IsSpace(r[0]) <==> IsSpace(s[0]))
  {
    if s == [] then []
    else if IsSpace(s[0]) then
      var rest := LStrip(s[1..]);
      NonSpaceOfSpaces(s[1..], |s[1..]| - |rest|);
      [' '] + Collapse(rest)
    else
      [s[0]] + Collapse(s[1..])
  }

  /** Collapse followed by strip: the part of `clean_text` after the tags are
      gone. The result is clean text and keeps every visible character. */
  function Normalize(s: string): (r: string)
    ensures Normalized(r)
    ensures NonSpace(r) == NonSpace(s)
  {
    var c := Collapse(s);
    var l := LStrip(c);
    CollapsedSlice(c, |c| - |l|, |c|);
    CollapsedSlice(l, 0, |RStrip(l)|);
    StripKeepsNonSpace(c);
    Strip(c)
  }

  /** `clean_text(text)`: empty input gives the empty string without touching the
      HTML parser; otherwise the parser's text (`markupText`, `None` when the
      parser raises) is collapsed and stripped. */
  function CleanText(markupText: string -> Option<string>, text: string): (r: Option<string>)
    ensures text == [] ==> r == Some([])
    ensures r.Some? ==> Normalized(r.value)
    ensures r.None? <==> text != [] && markupText(text).None?
    ensures text != [] && markupText(text).Some? ==> r == Some(Normalize(markupText(text).value))
  {
    if text == [] then Some([])
    else
      match markupText(text)
      case None => None
      case Some(t) => Some(Normalize(t))
  }

  // ---------------------------------------------------------------------
  // Lemmas

  /** Dropping a prefix made only of whitespace does not change the
      non-whitespace characters. */
  lemma {:induction false} NonSpaceOfSpaces(s: string, k: nat)
    requires k <= |s|
    requires forall i :: 0 <= i < k ==> IsSpace(s[i])
    ensures NonSpace(s) == NonSpace(s[k..])
  {
    if k > 0 {
      assert s[1..][k - 1..] == s[k..];
      NonSpaceOfSpaces(s[1..], k - 1);
    }
  }

  /** The non-whitespace characters of a concatenation. */
  lemma {:induction false} NonSpaceAppend(a: string, b: string)
    ensures NonSpace(a + b) == NonSpace(a) + NonSpace(b)
  {
    if a != [] {
      assert (a + b)[1..] == a[1..] + b;
      NonSpaceAppend(a[1..], b);
    } else {
      assert a + b == b;
    }
  }

  /** Dropping a suffix made only of whitespace does not change the
      non-whitespace characters. */
  lemma NonSpaceOfTrailingSpaces(s: string, k: nat)
    requires k <= |s|
    requires forall i :: k <= i < |s| ==> IsSpace(s[i])
    ensures NonSpace(s) == NonSpace(s[..k])
  {
    var a, b := s[..k], s[k..];
    assert forall i :: 0 <= i < |b| ==> IsSpace(b[i]) by {
      forall i | 0 <= i < |b| ensures IsSpace(b[i]) {
        assert b[i] == s[k + i];
      }
    }
    assert s == a + b;
    NonSpaceOfSpacesAfter(a, b);
  }

  /** Whitespace after `a` adds no non-whitespace character. */
  lemma NonSpaceOfSpacesAfter(a: string, b: string)
    requires forall i :: 0 <= i < |b| ==> IsSpace(b[i])
    ensures NonSpace(a + b) == NonSpace(a)
  {
    NonSpaceOfSpaces(b, |b|);
    assert b[|b|..] == [];
    NonSpaceAppend(a, b);
    assert NonSpace(a) + [] == NonSpace(a);
  }

  /** Removing characters from either end keeps a collapsed string collapsed. */
  lemma CollapsedSlice(s: string, i: nat, j: nat)
    requires i <= j <= |s| && Collapsed(s)
    ensures Collapsed(s[i..j])
  {
    var t := s[i..j];
    forall k | 0 <= k < |t| - 1 ensures !(IsSpace(t[k]) && IsSpace(t[k + 1])) {
      assert t[k] == s[i + k] && t[k + 1] == s[i + k + 1];
    }
  }

  /** `s.strip()` removes exactly the whitespace at both ends: the result is
      a slice of `s` with only whitespace around it. Being trimmed as well,
      it is the only such slice (the whole visible part of `s`). */
  lemma StripRemovesSurroundingSpace(s: string)
    ensures exists i :: Surrounds(s, i, Strip(s))
  {
    var l := LStrip(s);
    assert Strip(s) == RStrip(l);
    SurroundsOfStrips(s, l, RStrip(l));
  }

  /** A prefix `r` of a suffix `l` of `s`, with only whitespace cut off on
      either side, is surrounded by whitespace in `s`. */
  lemma SurroundsOfStrips(s: string, l: string, r: string)
    requires |l| <= |s| && l == s[|s| - |l|..]
    requires forall j :: 0 <= j < |s| - |l| ==> IsSpace(s[j])
    requires |r| <= |l| && r == l[..|r|]
    requires forall j :: |r| <= j < |l| ==> IsSpace(l[j])
    ensures Surrounds(s, |s| - |l|, r)
  {
    var i := |s| - |l|;
    assert s[i..i + |r|] == r;
    forall j | i + |r| <= j < |s| ensures IsSpace(s[j]) {
      assert s[j] == l[j - i];
    }
  }

  /** Stripping keeps every non-whitespace character. */
  lemma StripKeepsNonSpace(s: string)
    ensures NonSpace(Strip(s)) == NonSpace(s)
  {
    var l := LStrip(s);
    NonSpaceOfSpaces(s, |s| - |l|);
    NonSpaceOfTrailingSpaces(l, |RStrip(l)|);
  }

  /** A string already in normal form is left as it is. */
  lemma {:induction false} NormalizedIsFixedPoint(s: string)
    requires Normalized(s)
    ensures Normalize(s) == s
  {
    CollapseOfCollapsed(s);
  }

  lemma {:induction false} CollapseOfCollapsed(s: string)
    requires Collapsed(s)
    ensures Collapse(s) == s
  {
    if s != [] {
      CollapsedSlice(s, 1, |s|);
      CollapseOfCollapsed(s[1..]);
      CollapsedStep(s);
    }
  }

  /** One step of `CollapseOfCollapsed`: a collapsed string whose tail is left
      unchanged is left unchanged. */
  lemma CollapsedStep(s: string)
    requires s != [] && Collapsed(s) && Collapse(s[1..]) == s[1..]
    ensures Collapse(s) == s
  {
    var t := s[1..];
    if IsSpace(s[0]) {
      assert t != [] ==> t[0] == s[1] && !IsSpace(t[0]);
      assert LStrip(t) == t;
      assert s == [' '] + t;
    } else {
      assert s == [s[0]] + t;
    }
  }

  /** The longest prefix of `s` without whitespace. */
  function Word(s: string): (r: string)
    ensures |r| <= |s| && r == s[..|r|]
    ensures forall i :: 0 <= i < |r| ==> !IsSpace(r[i])
    ensures |r| == |s| || IsSpace(s[|r|])
  {
    if s == [] || IsSpace(s[0]) then [] else [s[0]] + Word(s[1..])
  }

  /** The maximal runs of non-whitespace characters of `s`, in order. */
  function Words(s: string): seq<string>
    decreases |s|
  {
    if s == [] then []
    else if IsSpace(s[0]) then Words(s[1..])
    else
      var w := Word(s);
      [w] + Words(s[|w|..])
  }

  /** A visible character in front of `t` starts a new word when `t` starts
      with whitespace or is empty, and extends the first word of `t`
      otherwise. */
  lemma WordsCons(c: char, t: string)
    requires !IsSpace(c)
    ensures t == [] || IsSpace(t[0]) ==> Words([c] + t) == [[c]] + Words(t)
    ensures t != [] && !IsSpace(t[0]) ==>
      Words(t) != [] && Words([c] + t) == [[c] + Words(t)[0]] + Words(t)[1..]
  {
    var s := [c] + t;
    assert s[1..] == t;
    var w := Word(t);
    assert Word(s) == [c] + w;
    assert s[|[c] + w|..] == t[|w|..];
  }

  /** Whitespace in front of `t` starts no word. */
  lemma {:induction false} WordsOfLeadingSpaces(s: string, k: nat)
    requires k <= |s|
    requires forall i :: 0 <= i < k ==> IsSpace(s[i])
    ensures Words(s) == Words(s[k..])
  {
    if k > 0 {
      assert s[1..][k - 1..] == s[k..];
      WordsOfLeadingSpaces(s[1..], k - 1);
    }
  }

  /** `re.sub(r'\s+', ' ', s)` keeps the words of `s`: every maximal run of
      visible characters survives as it is, and runs are never merged or
      split, since each whitespace run becomes exactly one space. */
  lemma {:induction false} CollapseKeepsWords(s: string)
    ensures Words(Collapse(s)) == Words(s)
    decreases |s|
  {
    if s != [] {
      if IsSpace(s[0]) {
        CollapseKeepsWords(LStrip(s[1..]));
        SpaceKeepsWords(s);
      } else {
        CollapseKeepsWords(s[1..]);
        CharKeepsWords(s);
      }
    }
  }

  /** The last character of `s` is whitespace. */
  predicate EndsInSpace(s: string) {
    s != [] && IsSpace(s[|s| - 1])
  }

  /** `re.sub(r'\s+', ' ', s)` ends with whitespace exactly when `s` does:
      a trailing whitespace run becomes one space and is not dropped. */
  lemma {:induction false} CollapseKeepsTrailingSpace(s: string)
    ensures EndsInSpace(Collapse(s)) <==> EndsInSpace(s)
    decreases |s|
  {
    if s == [] {
    } else if IsSpace(s[0]) {
      CollapseKeepsTrailingSpace(LStrip(s[1..]));
      TrailingSpaceAtSpace(s);
    } else {
      CollapseKeepsTrailingSpace(s[1..]);
      TrailingSpaceAtChar(s);
    }
  }

  /** The step of `CollapseKeepsTrailingSpace` at a whitespace run. */
  lemma TrailingSpaceAtSpace(s: string)
    requires s != [] && IsSpace(s[0])
    requires EndsInSpace(Collapse(LStrip(s[1..]))) <==> EndsInSpace(LStrip(s[1..]))
    ensures EndsInSpace(Collapse(s)) <==> EndsInSpace(s)
  {
    var rest := LStrip(s[1..]);
    CollapseAtSpace(s);
    RestEndsLikeText(s);
    SpaceThen(Collapse(rest));
  }

  /** `Collapse` at a leading whitespace run. */
  lemma CollapseAtSpace(s: string)
    requires s != [] && IsSpace(s[0])
    ensures Collapse(s) == [' '] + Collapse(LStrip(s[1..]))
  {
  }

  /** `Collapse` at a leading visible character. */
  lemma CollapseAtChar(s: string)
    requires s != [] && !IsSpace(s[0])
    ensures Collapse(s) == [s[0]] + Collapse(s[1..])
  {
  }

  /** The step of `CollapseKeepsTrailingSpace` at a visible character. */
  lemma TrailingSpaceAtChar(s: string)
    requires s != [] && !IsSpace(s[0])
    requires EndsInSpace(Collapse(s[1..])) <==> EndsInSpace(s[1..])
    ensures EndsInSpace(Collapse(s)) <==> EndsInSpace(s)
  {
    CollapseAtChar(s);
    TrailingAfterChar(s, Collapse(s[1..]));
  }

  /** Past a leading whitespace run, the rest of `s` ends as `s` does; when
      nothing is left, `s` was whitespace to its end. */
  lemma RestEndsLikeText(s: string)
    requires s != [] && IsSpace(s[0])
    ensures var rest := LStrip(s[1..]);
      && (rest == [] ==> EndsInSpace(s))
      && (rest != [] ==> (EndsInSpace(rest) <==> EndsInSpace(s)))
  {
    var rest := LStrip(s[1..]);
    if rest == [] {
      if |s| > 1 {
        assert IsSpace(s[1..][|s| - 2]);
      }
    } else {
      assert rest[|rest| - 1] == s[|s| - 1];
    }
  }

  /** A space in front of `c` is the last character only when `c` is empty. */
  lemma SpaceThen(c: string)
    ensures EndsInSpace([' '] + c) <==> c == [] || EndsInSpace(c)
  {
    assert c != [] ==> ([' '] + c)[|c|] == c[|c| - 1];
  }

  /** The trailing-space step at a visible first character, where `c`
      stands for the collapse of the rest. */
  lemma TrailingAfterChar(s: string, c: string)
    requires s != [] && !IsSpace(s[0])
    requires EndsInSpace(c) <==> EndsInSpace(s[1..])
    ensures EndsInSpace([s[0]] + c) <==> EndsInSpace(s)
  {
    assert c != [] ==> ([s[0]] + c)[|c|] == c[|c| - 1];
    assert |s| > 1 ==> s[1..][|s| - 2] == s[|s| - 1];
  }

  /** The step of `CollapseKeepsWords` at a whitespace run. */
  lemma SpaceKeepsWords(s: string)
    requires s != [] && IsSpace(s[0])
    requires Words(Collapse(LStrip(s[1..]))) == Words(LStrip(s[1..]))
    ensures Words(Collapse(s)) == Words(s)
  {
    var t := s[1..];
    var rest := LStrip(t);
    assert ([' '] + Collapse(rest))[1..] == Collapse(rest);
    WordsOfLeadingSpaces(t, |t| - |rest|);
  }

  /** The step of `CollapseKeepsWords` at a visible character. */
  lemma CharKeepsWords(s: string)
    requires s != [] && !IsSpace(s[0])
    requires Words(Collapse(s[1..])) == Words(s[1..])
    ensures Words(Collapse(s)) == Words(s)
  {
    var t := s[1..];
    assert Collapse(s) == [s[0]] + Collapse(t);
    assert [s[0]] + t == s;
    SameWordsAfter(s[0], t, Collapse(t));
  }

  /** Strings with the same words that both start a word, or both do not,
      keep the same words behind a visible character. */
  lemma SameWordsAfter(c: char, t: string, u: string)
    requires !IsSpace(c) && Words(u) == Words(t)
    requires (t == [] || IsSpace(t[0])) <==> (u == [] || IsSpace(u[0]))
    ensures Words([c] + u) == Words([c] + t)
  {
    WordsCons(c, t);
    WordsCons(c, u);
  }

  /** `clean_text`'s whitespace stage is idempotent. */
  lemma NormalizeIdempotent(s: string)
    ensures Normalize(Normalize(s)) == Normalize(s)
  {
    NormalizedIsFixedPoint(Normalize(s));
  }
}
