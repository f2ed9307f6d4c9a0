/** The sentence-based text chunker `create_chunks` (app.py:97-125).

    The text is cut at every run of `.`, `!` and `?`; each piece is stripped
    and empty pieces are dropped; the remaining sentences are packed greedily
    into chunks, each sentence written back followed by `". "`, and every
    chunk is stripped when it is closed. */
module Chunker {
  import opened TextNormalizer

  predicate IsTerminator(c: char) {
    c == '.' || c == '!' || c == '?'
  }

  predicate NoTerminator(s: string) {
    forall i :: 0 <= i < |s| ==> !IsTerminator(s[i])
  }

  /** A sentence as the packing loop sees it: stripped and not empty. */
  predicate IsSentence(s: string) {
    s != [] && Trimmed(s)
  }

  predicate AllSentences(ss: seq<string>) {
    forall i :: 0 <= i < |ss| ==> IsSentence(ss[i])
  }

  predicate AllNoTerminator(ss: seq<string>) {
    forall i :: 0 <= i < |ss| ==> NoTerminator(ss[i])
  }

  /** Chunk contents as packing produces them: non-empty groups of sentences. */
  predicate AllGroups(gs: seq<seq<string>>) {
    forall k :: 0 <= k < |gs| ==> gs[k] != [] && AllSentences(gs[k])
  }

  /** The concatenation of a sequence of sequences. */
  function Concat<T>(xs: seq<seq<T>>): seq<T> {
    if xs == [] then [] else xs[0] + Concat(xs[1..])
  }

  /** `sep.join(xs)`. */
  function Join(xs: seq<string>, sep: string): string {
    if xs == [] then []
    else if |xs| == 1 then xs[0]
    else xs[0] + sep + Join(xs[1..], sep)
  }

  /** The characters of `s` other than the sentence terminators. */
  function RemoveTerminators(s: string): (r: string)
    ensures NoTerminator(r)
  {
    if s == [] then []
    else if IsTerminator(s[0]) then RemoveTerminators(s[1..])
    else [s[0]] + RemoveTerminators(s[1..])
  }

  /** `s` without its leading run of terminators. */
  function SkipTerminators(s: string): (r: string)
    ensures |r| <= |s| && r == s[|s| - |r|..]
    ensures forall i :: 0 <= i < |s| - |r| ==> IsTerminator(s[i])
    ensures r == [] || !IsTerminator(r[0])
  {
    if s == [] || !IsTerminator(s[0]) then s else SkipTerminators(s[1..])
  }

  /** `re.split(r'[.!?]+', s)`: the pieces between the runs of terminators,
      including an empty piece before a leading run and after a trailing one. */
  function SplitSentences(s: string): (r: seq<string>)
    ensures |r| >= 1
    decreases |s|
  {
    if s == [] then [[]]
    else if IsTerminator(s[0]) then [[]] + SplitSentences(SkipTerminators(s[1..]))
    else
      var r := SplitSentences(s[1..]);
      [[s[0]] + r[0]] + r[1..]
  }

  /** The stripped, non-empty pieces, in order (`sentence.strip()` and the
      `continue` on an empty one). */
  function KeepSentences(pieces: seq<string>): seq<string> {
    if pieces == [] then []
    else
      var s := Strip(pieces[0]);
      (if s == [] then [] else [s]) + KeepSentences(pieces[1..])
  }

  /** The sentences `create_chunks` packs. */
  function Sentences(text: string): seq<string> {
    KeepSentences(SplitSentences(text))
  }

  /** The text `current_chunk` holds after the sentences of `g` were added:
      each followed by `". "`. */
  function Raw(g: seq<string>): string {
    if g == [] then [] else Raw(g[..|g| - 1]) + g[|g| - 1] + ". "
  }

  /** A closed chunk: `current_chunk.strip()`. */
  function Render(g: seq<string>): string {
    Strip(Raw(g))
  }

  /** `[f(x) for x in xs]`. */
  function Map<A, B>(f: A -> B, xs: seq<A>): (r: seq<B>)
    ensures |r| == |xs|
    ensures forall k :: 0 <= k < |xs| ==> r[k] == f(xs[k])
  {
    seq(|xs|, k requires 0 <= k < |xs| => f(xs[k]))
  }

  /** Every closed chunk of a list of groups. */
  function RenderAll(gs: seq<seq<string>>): (r: seq<string>)
    ensures |r| == |gs|
    ensures forall k :: 0 <= k < |gs| ==> r[k] == Render(gs[k])
  {
    Map(Render, gs)
  }

  /** The greedy packing loop of `create_chunks` over `sents`, with the sentences
      `cur` already in the open chunk: a sentence joins the open chunk when the
      chunk's text plus the sentence is at most `size` characters, and
      otherwise closes it (if it is not empty) and opens the next one. */
  function Pack(sents: seq<string>, size: int, cur: seq<string>): seq<seq<string>>
    decreases |sents|
  {
    if sents == [] then (if cur == [] then [] else [cur])
    else if |Raw(cur)| + |sents[0]| <= size then Pack(sents[1..], size, cur + [sents[0]])
    else (if cur == [] then [] else [cur]) + Pack(sents[1..], size, [sents[0]])
  }

  /** The sentences of each chunk `create_chunks(text, size)` returns. */
  function Groups(text: string, size: int): seq<seq<string>> {
    if text == [] then [] else Pack(Sentences(text), size, [])
  }

  /** `create_chunks(text, size)`. */
  function Chunks(text: string, size: int): seq<string> {
    RenderAll(Groups(text, size))
  }

  /** The chunk after `gs[k]` was opened because its first sentence did not fit
      beside the sentences of `gs[k]`. */
  predicate ClosedWhenFull(gs: seq<seq<string>>, k: nat, size: int)
    requires k + 1 < |gs|
  {
    gs[k + 1] != [] && |Raw(gs[k])| + |gs[k + 1][0]| > size
  }

  /** Every sentence after the first in `g` was admitted by the size test. */
  predicate Fits(g: seq<string>, size: int) {
    forall j :: 0 < j < |g| ==> |Raw(g[..j])| + |g[j]| <= size
  }

  /** The chunk shape `create_chunks` produces: at least one character before a
      final `.`, and no whitespace at either end. */
  predicate WellFormedChunk(c: string) {
    |c| >= 2 && c[|c| - 1] == '.' && Trimmed(c)
  }

  /** `create_chunks` as the source writes it: one pass over the pieces of the
      split, with the open chunk kept as text. */
  method CreateChunks(text: string, chunkSize: int) returns (chunks: seq<string>)
    ensures chunks == Chunks(text, chunkSize)
    ensures text == [] ==> chunks == []
  {
    if text == [] {
      return [];
    }
    var pieces := SplitSentences(text);
    chunks := [];
    var current: string := [];
    ghost var cur: seq<string> := [];
    assert pieces[0..] == pieces;
    for i := 0 to |pieces|
      invariant current == Raw(cur)
      invariant chunks + Remaining(pieces, i, chunkSize, cur) == Chunks(text, chunkSize)
    {
      var sentence := Strip(pieces[i]);
      RawEmpty(cur);
      if sentence == [] {
        SkipStep(pieces, i, chunkSize, cur, chunks, Chunks(text, chunkSize));
      } else if |current + sentence| <= chunkSize {
        AdmitStep(pieces, i, chunkSize, cur, chunks, Chunks(text, chunkSize));
        current := current + sentence + ". ";
        cur := cur + [sentence];
      } else {
        CloseStep(pieces, i, chunkSize, cur, chunks, Chunks(text, chunkSize));
        RawSingle(sentence);
        if current != [] {
          chunks := chunks + [Strip(current)];
        }
        current := sentence + ". ";
        cur := [sentence];
      }
    }
    RemainingEnd(pieces, chunkSize, cur);
    RawEmpty(cur);
    if current != [] {
      chunks := chunks + [Strip(current)];
    } else {
      assert chunks + [] == chunks;
    }
  }

  /** One loop step of `CreateChunks` on a piece that strips to nothing. */
  lemma SkipStep(pieces: seq<string>, i: nat, size: int, cur: seq<string>, done: seq<string>, goal: seq<string>)
    requires i < |pieces| && Strip(pieces[i]) == []
    requires done + Remaining(pieces, i, size, cur) == goal
    ensures done + Remaining(pieces, i + 1, size, cur) == goal
  {
    RemainingSkip(pieces, i, size, cur);
  }

  /** One loop step of `CreateChunks` that adds a sentence to the open chunk. */
  lemma AdmitStep(pieces: seq<string>, i: nat, size: int, cur: seq<string>, done: seq<string>, goal: seq<string>)
    requires i < |pieces| && Strip(pieces[i]) != []
    requires |Raw(cur) + Strip(pieces[i])| <= size
    requires done + Remaining(pieces, i, size, cur) == goal
    ensures done + Remaining(pieces, i + 1, size, cur + [Strip(pieces[i])]) == goal
    ensures Raw(cur + [Strip(pieces[i])]) == Raw(cur) + Strip(pieces[i]) + ". "
  {
    RemainingAdmit(pieces, i, size, cur);
    RawSnoc(cur, Strip(pieces[i]));
  }

  /** One loop step of `CreateChunks` that closes the open chunk (if any) and
      opens a new one with the sentence. */
  lemma CloseStep(pieces: seq<string>, i: nat, size: int, cur: seq<string>, done: seq<string>, goal: seq<string>)
    requires i < |pieces| && Strip(pieces[i]) != []
    requires |Raw(cur) + Strip(pieces[i])| > size
    requires done + Remaining(pieces, i, size, cur) == goal
    ensures (if cur == [] then done else done + [Strip(Raw(cur))])
      + Remaining(pieces, i + 1, size, [Strip(pieces[i])]) == goal
  {
    var later := Remaining(pieces, i + 1, size, [Strip(pieces[i])]);
    RemainingClose(pieces, i, size, cur);
    if cur == [] {
      assert [] + later == later;
    } else {
      Regroup(done, [Render(cur)], later, Remaining(pieces, i, size, cur), goal);
    }
  }

  /** The text of a chunk holding one sentence. */
  lemma RawSingle(x: string)
    ensures Raw([x]) == x + ". "
  {
    RawSnoc([], x);
    assert [] + [x] == [x];
  }

  /** Splitting the second part of a concatenation in two. */
  lemma Regroup<T>(a: seq<T>, b: seq<T>, c: seq<T>, bc: seq<T>, whole: seq<T>)
    requires bc == b + c && a + bc == whole
    ensures a + b + c == whole
  {
  }

  /** The chunks still to come when the loop of `CreateChunks` is at piece `i`
      with the sentences `cur` in the open chunk. */
  ghost function Remaining(pieces: seq<string>, i: nat, size: int, cur: seq<string>): seq<string>
    requires i <= |pieces|
  {
    RenderAll(Pack(KeepSentences(pieces[i..]), size, cur))
  }

  lemma RemainingSkip(pieces: seq<string>, i: nat, size: int, cur: seq<string>)
    requires i < |pieces| && Strip(pieces[i]) == []
    ensures Remaining(pieces, i, size, cur) == Remaining(pieces, i + 1, size, cur)
  {
    KeepSentencesSkip(pieces, i);
  }

  lemma RemainingAdmit(pieces: seq<string>, i: nat, size: int, cur: seq<string>)
    requires i < |pieces| && Strip(pieces[i]) != []
    requires |Raw(cur)| + |Strip(pieces[i])| <= size
    ensures Remaining(pieces, i, size, cur) == Remaining(pieces, i + 1, size, cur + [Strip(pieces[i])])
  {
    KeepSentencesTake(pieces, i);
    PackAdmit(Strip(pieces[i]), KeepSentences(pieces[i + 1..]), size, cur);
  }

  lemma RemainingClose(pieces: seq<string>, i: nat, size: int, cur: seq<string>)
    requires i < |pieces| && Strip(pieces[i]) != []
    requires |Raw(cur)| + |Strip(pieces[i])| > size
    ensures Remaining(pieces, i, size, cur)
      == (if cur == [] then [] else [Render(cur)]) + Remaining(pieces, i + 1, size, [Strip(pieces[i])])
  {
    KeepSentencesTake(pieces, i);
    PackClose(Strip(pieces[i]), KeepSentences(pieces[i + 1..]), size, cur);
  }

  lemma RemainingEnd(pieces: seq<string>, size: int, cur: seq<string>)
    ensures Remaining(pieces, |pieces|, size, cur) == (if cur == [] then [] else [Render(cur)])
  {
    assert pieces[|pieces|..] == [];
  }

  // ---------------------------------------------------------------------
  // Lemmas: splitting

  /** A leading run of terminators contributes nothing once terminators are
      removed. */
  lemma {:induction false} RemoveLeadingTerminators(s: string, k: nat)
    requires k <= |s|
    requires forall i :: 0 <= i < k ==> IsTerminator(s[i])
    ensures RemoveTerminators(s) == RemoveTerminators(s[k..])
  {
    if k > 0 {
      assert s[1..][k - 1..] == s[k..];
      RemoveLeadingTerminators(s[1..], k - 1);
    }
  }

  /** The pieces of the split hold no terminator. */
  lemma {:induction false} SplitPiecesHaveNoTerminator(s: string)
    ensures AllNoTerminator(SplitSentences(s))
    decreases |s|
  {
    if s != [] && IsTerminator(s[0]) {
      SplitPiecesHaveNoTerminator(SkipTerminators(s[1..]));
    } else if s != [] {
      var r := SplitSentences(s[1..]);
      SplitPiecesHaveNoTerminator(s[1..]);
      var first := [s[0]] + r[0];
      assert NoTerminator(r[0]);
      forall i | 0 <= i < |first| ensures !IsTerminator(first[i]) {
        if i > 0 {
          assert first[i] == r[0][i - 1];
        }
      }
      var r' := [first] + r[1..];
      forall i | 0 <= i < |r'| ensures NoTerminator(r'[i]) {
        if i > 0 {
          assert r'[i] == r[i];
        }
      }
    }
  }

  /** Together the pieces of the split hold exactly the characters of the text
      that are not terminators, in order. */
  lemma {:induction false} SplitKeepsText(s: string)
    ensures Concat(SplitSentences(s)) == RemoveTerminators(s)
    decreases |s|
  {
    if s == [] {
      assert Concat([[]]) == [] + Concat<char>([]);
    } else if IsTerminator(s[0]) {
      var rest := SkipTerminators(s[1..]);
      SplitKeepsText(rest);
      assert s[|s| - |rest|..] == rest;
      RemoveLeadingTerminators(s, |s| - |rest|);
      var r := SplitSentences(rest);
      assert ([[]] + r)[1..] == r;
    } else {
      var r := SplitSentences(s[1..]);
      SplitKeepsText(s[1..]);
      var r' := [[s[0]] + r[0]] + r[1..];
      assert r'[1..] == r[1..];
      assert Concat(r) == r[0] + Concat(r[1..]);
    }
  }

  /** `ps[0] + seps[0] + ps[1] + ... + seps[n - 2] + ps[n - 1]`: pieces put
      back together with the separators between them. */
  function Weave(ps: seq<string>, seps: seq<string>): string
    requires |ps| == |seps| + 1
  {
    if |ps| == 1 then ps[0] else ps[0] + seps[0] + Weave(ps[1..], seps[1..])
  }

  /** A non-empty run made only of terminators. */
  predicate IsTerminatorRun(t: string) {
    t != [] && forall i :: 0 <= i < |t| ==> IsTerminator(t[i])
  }

  predicate AllRuns(seps: seq<string>) {
    forall k :: 0 <= k < |seps| ==> IsTerminatorRun(seps[k])
  }

  /** Every piece other than the first and the last is non-empty. */
  predicate InnerNonEmpty(ps: seq<string>) {
    forall k :: 0 < k < |ps| - 1 ==> ps[k] != []
  }

  /** `ps` is a split of `s` at the maximal runs of terminators `seps`: the
      pieces hold no terminator, the separators are terminator runs, a
      piece between two separators is not empty (so no run is cut in two),
      and pieces and separators together give back `s`. */
  predicate IsSplitOf(s: string, ps: seq<string>, seps: seq<string>) {
    && |ps| == |seps| + 1
    && AllNoTerminator(ps)
    && AllRuns(seps)
    && InnerNonEmpty(ps)
    && Weave(ps, seps) == s
  }

  /** The runs of terminators of `s`, in order. */
  function Separators(s: string): seq<string>
    decreases |s|
  {
    if s == [] then []
    else if IsTerminator(s[0]) then
      var rest := SkipTerminators(s[1..]);
      [s[..|s| - |rest|]] + Separators(rest)
    else Separators(s[1..])
  }

  /** `re.split(r'[.!?]+', s)` cuts `s` exactly at its maximal runs of
      terminators: with those runs put back between them, its pieces give
      `s` again. */
  lemma {:induction false} SplitSentencesIsASplit(s: string)
    ensures IsSplitOf(s, SplitSentences(s), Separators(s))
    decreases |s|
  {
    if s == [] {
      assert Weave([[]], []) == [];
    } else if IsTerminator(s[0]) {
      var rest := SkipTerminators(s[1..]);
      SplitSentencesIsASplit(rest);
      SplitAtRun(s);
    } else {
      SplitSentencesIsASplit(s[1..]);
      SplitAtChar(s);
    }
  }

  /** A text that starts with a terminator is its leading run followed by
      the rest. */
  lemma LeadingRun(s: string)
    requires s != [] && IsTerminator(s[0])
    ensures var rest := SkipTerminators(s[1..]);
      && |rest| < |s|
      && IsTerminatorRun(s[..|s| - |rest|])
      && s == s[..|s| - |rest|] + rest
      && (rest == [] || !IsTerminator(rest[0]))
  {
    RunBeforeRest(s, SkipTerminators(s[1..]));
  }

  /** A text whose characters after the first, up to the suffix `rest`, are
      all terminators is that run followed by `rest`. */
  lemma RunBeforeRest(s: string, rest: string)
    requires s != [] && IsTerminator(s[0])
    requires |rest| <= |s[1..]| && rest == s[1..][|s[1..]| - |rest|..]
    requires forall i :: 0 <= i < |s[1..]| - |rest| ==> IsTerminator(s[1..][i])
    ensures |rest| < |s| && IsTerminatorRun(s[..|s| - |rest|]) && s == s[..|s| - |rest|] + rest
  {
    var t := s[1..];
    var run := s[..|s| - |rest|];
    forall i | 0 <= i < |run| ensures IsTerminator(run[i]) {
      if i > 0 {
        assert run[i] == t[i - 1];
      }
    }
    assert s[|s| - |rest|..] == rest;
  }

  /** The split of a text that starts with a run of terminators: an empty
      piece, the run, then the split of the rest. */
  lemma SplitAtRun(s: string)
    requires s != [] && IsTerminator(s[0])
    requires IsSplitOf(SkipTerminators(s[1..]), SplitSentences(SkipTerminators(s[1..])), Separators(SkipTerminators(s[1..])))
    ensures IsSplitOf(s, SplitSentences(s), Separators(s))
  {
    var rest := SkipTerminators(s[1..]);
    LeadingRun(s);
    SplitOfRun(s);
    RunThenSplit(s[..|s| - |rest|], rest, SplitSentences(rest), Separators(rest));
  }

  lemma SplitOfRun(s: string)
    requires s != [] && IsTerminator(s[0])
    ensures var rest := SkipTerminators(s[1..]);
      && SplitSentences(s) == [[]] + SplitSentences(rest)
      && Separators(s) == [s[..|s| - |rest|]] + Separators(rest)
  {
    SplitSentencesOfRun(s);
    SeparatorsOfRun(s);
  }

  lemma SplitSentencesOfRun(s: string)
    requires s != [] && IsTerminator(s[0])
    ensures SplitSentences(s) == [[]] + SplitSentences(SkipTerminators(s[1..]))
  {
  }

  lemma SeparatorsOfRun(s: string)
    requires s != [] && IsTerminator(s[0])
    ensures var rest := SkipTerminators(s[1..]);
      Separators(s) == [s[..|s| - |rest|]] + Separators(rest)
  {
  }

  /** A terminator run in front of a split text that does not start with a
      terminator adds an empty first piece and the run as first separator. */
  lemma RunThenSplit(run: string, rest: string, r: seq<string>, seps: seq<string>)
    requires IsTerminatorRun(run) && (rest == [] || !IsTerminator(rest[0]))
    requires IsSplitOf(rest, r, seps)
    ensures IsSplitOf(run + rest, [[]] + r, [run] + seps)
  {
    var ps, seps' := [[]] + r, [run] + seps;
    assert Weave(ps, seps') == run + rest by {
      WeaveCons([], r, run, seps);
      assert [] + run + rest == run + rest;
    }
    assert InnerNonEmpty(ps) by {
      if |r| >= 2 {
        WeaveFirst(r, seps);
      }
      InnerCons([], r);
    }
    assert AllNoTerminator(ps) by {
      NoTerminatorSplit([[]], r);
    }
    assert AllRuns(seps') by {
      AllRunsCons(run, seps);
    }
  }

  /** A woven text starts with a terminator exactly when its first piece is
      empty. */
  lemma WeaveFirst(ps: seq<string>, seps: seq<string>)
    requires |ps| == |seps| + 1 && AllNoTerminator(ps) && AllRuns(seps)
    requires Weave(ps, seps) != []
    ensures IsTerminator(Weave(ps, seps)[0]) <==> ps[0] == []
  {
    var w := Weave(ps, seps);
    if ps[0] != [] {
      assert w[0] == ps[0][0];
      assert NoTerminator(ps[0]);
    } else {
      assert |ps| > 1;
      assert w[0] == seps[0][0];
      assert IsTerminatorRun(seps[0]);
    }
  }

  /** The split of a text that starts with a character other than a
      terminator: that character in front of the first piece of the split
      of the rest. */
  lemma SplitAtChar(s: string)
    requires s != [] && !IsTerminator(s[0])
    requires IsSplitOf(s[1..], SplitSentences(s[1..]), Separators(s[1..]))
    ensures IsSplitOf(s, SplitSentences(s), Separators(s))
  {
    var t := s[1..];
    var r, seps := SplitSentences(t), Separators(t);
    var first := [s[0]] + r[0];
    var ps := [first] + r[1..];
    assert SplitSentences(s) == ps && Separators(s) == seps;
    assert NoTerminator(first) by {
      assert NoTerminator(r[0]) by {
        NoTerminatorSplit([r[0]], r[1..]);
        assert [r[0]] + r[1..] == r;
      }
      forall i | 0 <= i < |first| ensures !IsTerminator(first[i]) {
        if i > 0 {
          assert first[i] == r[0][i - 1];
        }
      }
    }
    assert AllNoTerminator(ps) by {
      assert [r[0]] + r[1..] == r;
      NoTerminatorSplit([r[0]], r[1..]);
      NoTerminatorSplit([first], r[1..]);
    }
    assert Weave(ps, seps) == s by {
      WeaveHead(r, seps, s[0]);
      assert [s[0]] + t == s;
    }
    assert InnerNonEmpty(ps) by {
      forall k | 0 < k < |ps| - 1 ensures ps[k] != [] {
        assert ps[k] == r[k];
      }
    }
  }

  lemma AllRunsCons(run: string, seps: seq<string>)
    ensures AllRuns([run] + seps) <==> IsTerminatorRun(run) && AllRuns(seps)
  {
    var xs := [run] + seps;
    if IsTerminatorRun(run) && AllRuns(seps) {
      forall k | 0 <= k < |xs| ensures IsTerminatorRun(xs[k]) {
        if k > 0 {
          assert xs[k] == seps[k - 1];
        }
      }
    }
    if AllRuns(xs) {
      assert IsTerminatorRun(xs[0]);
      forall k | 0 <= k < |seps| ensures IsTerminatorRun(seps[k]) {
        assert IsTerminatorRun(xs[k + 1]);
      }
    }
  }

  lemma InnerCons(p: string, ps: seq<string>)
    ensures InnerNonEmpty([p] + ps) <==> InnerNonEmpty(ps) && (|ps| >= 2 ==> ps[0] != [])
  {
    var xs := [p] + ps;
    assert forall k :: 0 <= k < |ps| ==> xs[k + 1] == ps[k];
  }

  /** One more piece and separator in front. */
  lemma WeaveCons(p: string, ps: seq<string>, t: string, seps: seq<string>)
    requires |ps| == |seps| + 1
    ensures Weave([p] + ps, [t] + seps) == p + t + Weave(ps, seps)
  {
    assert ([p] + ps)[1..] == ps && ([t] + seps)[1..] == seps;
  }

  /** Putting a character in front of the first piece puts it in front of
      the whole. */
  lemma WeaveHead(ps: seq<string>, seps: seq<string>, c: char)
    requires |ps| == |seps| + 1
    ensures Weave([[c] + ps[0]] + ps[1..], seps) == [c] + Weave(ps, seps)
  {
    var ps' := [[c] + ps[0]] + ps[1..];
    assert ps'[1..] == ps[1..];
  }

  /** Only one split cuts `s` at its maximal runs of terminators, so the
      pieces of `re.split(r'[.!?]+', s)` are determined by that property. */
  lemma {:induction false} SplitIsUnique(s: string, ps: seq<string>, seps: seq<string>)
    requires IsSplitOf(s, ps, seps)
    ensures ps == SplitSentences(s)
    decreases |s|
  {
    if s == [] {
      assert |ps| == 1;
      assert ps == [[]];
    } else if IsTerminator(s[0]) {
      RunSplitTail(s, ps, seps);
      SplitIsUnique(Weave(ps[1..], seps[1..]), ps[1..], seps[1..]);
      UniqueAtRun(s, ps, seps);
    } else {
      var ps' := UniqueAtChar(s, ps, seps);
      SplitIsUnique(s[1..], ps', seps);
    }
  }

  /** A split of a text that starts with a terminator has an empty first
      piece and, after the first separator, a split of the rest of the
      text, which does not start with a terminator. */
  lemma RunSplitTail(s: string, ps: seq<string>, seps: seq<string>)
    requires IsSplitOf(s, ps, seps) && s != [] && IsTerminator(s[0])
    ensures |ps| > 1 && ps[0] == []
    ensures var rest := Weave(ps[1..], seps[1..]);
      && IsTerminatorRun(seps[0]) && s == seps[0] + rest
      && IsSplitOf(rest, ps[1..], seps[1..])
      && (rest == [] || !IsTerminator(rest[0]))
  {
    WeaveFirst(ps, seps);
    var ps1, seps1 := ps[1..], seps[1..];
    assert |ps| > 1;
    var rest := Weave(ps1, seps1);
    assert s == ps[0] + seps[0] + rest;
    assert AllNoTerminator(ps1) by {
      assert [ps[0]] + ps1 == ps;
      NoTerminatorSplit([ps[0]], ps1);
    }
    assert IsTerminatorRun(seps[0]) && AllRuns(seps1) by {
      assert [seps[0]] + seps1 == seps;
      AllRunsCons(seps[0], seps1);
    }
    assert InnerNonEmpty(ps1) && (|ps1| >= 2 ==> ps1[0] != []) by {
      assert [ps[0]] + ps1 == ps;
      InnerCons(ps[0], ps1);
    }
    if rest != [] {
      WeaveFirst(ps1, seps1);
    }
  }

  /** A split of a text that starts with a terminator is the regular
      expression's split when its pieces after the first are. */
  lemma UniqueAtRun(s: string, ps: seq<string>, seps: seq<string>)
    requires IsSplitOf(s, ps, seps) && s != [] && IsTerminator(s[0])
    requires |ps| > 1 && ps[1..] == SplitSentences(Weave(ps[1..], seps[1..]))
    ensures ps == SplitSentences(s)
  {
    RunSplitTail(s, ps, seps);
    SkipLeadingRun(s, seps[0], Weave(ps[1..], seps[1..]));
    SplitSentencesOfRun(s);
    assert ps == [[]] + ps[1..];
  }

  /** Past the first character of a run of terminators, skipping terminators
      reaches the text after the run. */
  lemma SkipLeadingRun(s: string, run: string, rest: string)
    requires IsTerminatorRun(run) && s == run + rest
    requires rest == [] || !IsTerminator(rest[0])
    ensures SkipTerminators(s[1..]) == rest
  {
    var t := run[1..];
    assert s[1..] == t + rest;
    assert forall i :: 0 <= i < |t| ==> IsTerminator(t[i]) by {
      forall i | 0 <= i < |t| ensures IsTerminator(t[i]) {
        assert t[i] == run[i + 1];
      }
    }
    SkipRun(t, rest);
  }

  /** A split of a text that starts with another character has that
      character in front of its first piece; without it, it is a split of
      the rest of the text. */
  lemma UniqueAtChar(s: string, ps: seq<string>, seps: seq<string>) returns (ps': seq<string>)
    requires IsSplitOf(s, ps, seps) && s != [] && !IsTerminator(s[0])
    ensures IsSplitOf(s[1..], ps', seps)
    ensures ps == SplitSentences(s) <== ps' == SplitSentences(s[1..])
  {
    assert ps[0] != [] && s[0] == ps[0][0];
    ps' := [ps[0][1..]] + ps[1..];
    assert ps'[0] == ps[0][1..] && ps'[1..] == ps[1..];
    assert [s[0]] + ps[0][1..] == ps[0];
    assert ps == [[s[0]] + ps'[0]] + ps'[1..];
    assert Weave(ps', seps) == s[1..] by {
      WeaveHead(ps', seps, s[0]);
    }
    assert AllNoTerminator(ps') by {
      assert [ps[0]] + ps[1..] == ps;
      NoTerminatorSplit([ps[0]], ps[1..]);
      assert NoTerminator(ps'[0]) by {
        forall i | 0 <= i < |ps'[0]| ensures !IsTerminator(ps'[0][i]) {
          assert ps'[0][i] == ps[0][i + 1];
        }
      }
      NoTerminatorSplit([ps'[0]], ps[1..]);
    }
    assert InnerNonEmpty(ps') by {
      InnerCons(ps[0], ps[1..]);
      InnerCons(ps'[0], ps[1..]);
    }
  }

  /** Skipping a run of terminators that is followed by text not starting
      with one leaves that text. */
  lemma {:induction false} SkipRun(t: string, w: string)
    requires forall i :: 0 <= i < |t| ==> IsTerminator(t[i])
    requires w == [] || !IsTerminator(w[0])
    ensures SkipTerminators(t + w) == w
    decreases |t|
  {
    if t != [] {
      assert (t + w)[1..] == t[1..] + w;
      SkipRun(t[1..], w);
    } else {
      assert t + w == w;
    }
  }

  /** Every closed or open chunk's text ends with `". "`. */
  lemma RawEnds(g: seq<string>)
    requires g != []
    ensures |Raw(g)| >= 2 && Raw(g)[|Raw(g)| - 1] == ' ' && Raw(g)[|Raw(g)| - 2] == '.'
  {
  }

  /** One step of the filter: the first piece, stripped, is kept when it is
      not empty. */
  lemma KeepSentencesSkip(pieces: seq<string>, i: nat)
    requires i < |pieces| && Strip(pieces[i]) == []
    ensures KeepSentences(pieces[i..]) == KeepSentences(pieces[i + 1..])
  {
    assert pieces[i..][1..] == pieces[i + 1..];
    assert pieces[i..][0] == pieces[i];
  }

  lemma KeepSentencesTake(pieces: seq<string>, i: nat)
    requires i < |pieces| && Strip(pieces[i]) != []
    ensures KeepSentences(pieces[i..]) == [Strip(pieces[i])] + KeepSentences(pieces[i + 1..])
  {
    assert pieces[i..][1..] == pieces[i + 1..];
    assert pieces[i..][0] == pieces[i];
  }

  /** Every kept piece is a sentence, and no more sentences are kept than
      there were pieces. */
  lemma {:induction false} KeptAreSentences(pieces: seq<string>)
    ensures |KeepSentences(pieces)| <= |pieces|
    ensures AllSentences(KeepSentences(pieces))
  {
    if pieces != [] {
      var tail := KeepSentences(pieces[1..]);
      KeptAreSentences(pieces[1..]);
      var s := Strip(pieces[0]);
      var head: seq<string> := if s == [] then [] else [s];
      assert KeepSentences(pieces) == head + tail;
      assert AllSentences(head);
      AllSentencesAppend(head, tail);
    }
  }

  lemma SentencesAreSentences(text: string)
    ensures AllSentences(Sentences(text))
  {
    KeptAreSentences(SplitSentences(text));
  }

  /** Stripping a piece that holds no terminator leaves none in it. */
  lemma StripNoTerminator(s: string)
    requires NoTerminator(s)
    ensures NoTerminator(Strip(s))
  {
    var l := LStrip(s);
    var r := RStrip(l);
    forall i | 0 <= i < |r| ensures !IsTerminator(r[i]) {
      assert r[i] == l[i] == s[|s| - |l| + i];
    }
  }

  /** The filter keeps no terminator where the pieces had none. */
  lemma {:induction false} KeptSentencesHaveNoTerminator(pieces: seq<string>)
    requires AllNoTerminator(pieces)
    ensures AllNoTerminator(KeepSentences(pieces))
  {
    if pieces != [] {
      NoTerminatorHeadTail(pieces);
      KeptSentencesHaveNoTerminator(pieces[1..]);
      KeepSentencesNoTerminatorStep(pieces);
    }
  }

  lemma NoTerminatorHeadTail(pieces: seq<string>)
    requires pieces != [] && AllNoTerminator(pieces)
    ensures NoTerminator(pieces[0]) && AllNoTerminator(pieces[1..])
  {
    assert [pieces[0]] + pieces[1..] == pieces;
    NoTerminatorSplit([pieces[0]], pieces[1..]);
  }

  lemma KeepSentencesNoTerminatorStep(pieces: seq<string>)
    requires pieces != [] && NoTerminator(pieces[0])
    requires AllNoTerminator(KeepSentences(pieces[1..]))
    ensures AllNoTerminator(KeepSentences(pieces))
  {
    var s := Strip(pieces[0]);
    var head: seq<string> := if s == [] then [] else [s];
    var tail := KeepSentences(pieces[1..]);
    StripNoTerminator(pieces[0]);
    NoTerminatorSplit(head, tail);
    assert KeepSentences(pieces) == head + tail;
  }

  /** A concatenation of pieces holds no terminator exactly when both parts
      hold none. */
  lemma NoTerminatorSplit(a: seq<string>, b: seq<string>)
    ensures AllNoTerminator(a + b) <==> AllNoTerminator(a) && AllNoTerminator(b)
  {
    if AllNoTerminator(a + b) {
      forall i | 0 <= i < |b| ensures NoTerminator(b[i]) {
        assert b[i] == (a + b)[|a| + i];
      }
      forall i | 0 <= i < |a| ensures NoTerminator(a[i]) {
        assert a[i] == (a + b)[i];
      }
    }
    if AllNoTerminator(a) && AllNoTerminator(b) {
      forall i | 0 <= i < |a + b| ensures NoTerminator((a + b)[i]) {
        if i >= |a| {
          assert (a + b)[i] == b[i - |a|];
        }
      }
    }
  }

  /** No sentence `create_chunks` packs contains `.`, `!` or `?`: the
      terminators are all consumed by the split. */
  lemma SentencesHaveNoTerminator(text: string)
    ensures AllNoTerminator(Sentences(text))
  {
    SplitPiecesHaveNoTerminator(text);
    KeptSentencesHaveNoTerminator(SplitSentences(text));
  }

  // ---------------------------------------------------------------------
  // Lemmas: the text of a chunk

  lemma {:induction false} ConcatAppend<T>(a: seq<seq<T>>, b: seq<seq<T>>)
    ensures Concat(a + b) == Concat(a) + Concat(b)
  {
    if a == [] {
      assert a + b == b;
    } else {
      assert (a + b)[1..] == a[1..] + b;
      ConcatAppend(a[1..], b);
    }
  }

  lemma {:induction false} ConcatLength(gs: seq<seq<string>>)
    requires forall k :: 0 <= k < |gs| ==> gs[k] != []
    ensures |gs| <= |Concat(gs)|
  {
    if gs != [] {
      ConcatLength(gs[1..]);
    }
  }

  /** Adding a sentence to the open chunk appends it and `". "` to its text. */
  lemma RawSnoc(g: seq<string>, x: string)
    ensures Raw(g + [x]) == Raw(g) + x + ". "
  {
    assert (g + [x])[..|g|] == g;
  }

  /** The open chunk's text is empty exactly when it holds no sentence. */
  lemma RawEmpty(g: seq<string>)
    ensures Raw(g) == [] <==> g == []
  {
  }

  lemma {:induction false} RawAppend(a: seq<string>, b: seq<string>)
    ensures Raw(a + b) == Raw(a) + Raw(b)
    decreases |b|
  {
    if b == [] {
      assert a + b == a;
    } else {
      var b' := b[..|b| - 1];
      assert (a + b)[..|a + b| - 1] == a + b';
      RawAppend(a, b');
    }
  }

  /** The open chunk's text starts with its first sentence. */
  lemma {:induction false} RawStart(g: seq<string>)
    requires g != [] && g[0] != []
    ensures Raw(g)[0] == g[0][0]
  {
    if |g| > 1 {
      RawStart(g[..|g| - 1]);
    } else {
      assert g[..0] == [];
    }
  }

  /** Closing a chunk removes exactly the final space of its text. */
  lemma RenderDropsFinalSpace(g: seq<string>)
    requires g != [] && AllSentences(g)
    ensures Render(g) == Raw(g)[..|Raw(g)| - 1]
    ensures WellFormedChunk(Render(g))
  {
    var r := Raw(g);
    assert |r| >= 3 && r[|r| - 1] == ' ' && r[|r| - 2] == '.' by {
      RawEnds(g);
      assert IsSentence(g[|g| - 1]);
    }
    assert !IsSpace(r[0]) by {
      assert IsSentence(g[0]);
      RawStart(g);
    }
    StripFinalSpace(r);
  }

  /** Stripping text that starts with a visible character and ends with
      `". "` removes the final space only. */
  lemma StripFinalSpace(r: string)
    requires |r| >= 3 && r[|r| - 1] == ' ' && r[|r| - 2] == '.' && !IsSpace(r[0])
    ensures Strip(r) == r[..|r| - 1]
    ensures WellFormedChunk(r[..|r| - 1])
  {
    var n := |r|;
    assert LStrip(r) == r;
    var d := r[..n - 1];
    assert RStrip(d) == d by {
      assert d[|d| - 1] == '.';
    }
    assert RStrip(r) == d by {
      assert r[..n - 1] == d;
    }
  }

  /** A chunk of one sentence is that sentence and a full stop. */
  lemma RenderSingle(x: string)
    requires IsSentence(x)
    ensures Render([x]) == x + "."
  {
    RawSingle(x);
    RenderDropsFinalSpace([x]);
  }

  /** Closed chunk, space, rest of the text: the space stands where the chunk's
      own final space was. */
  lemma JoinStep(r: string, t: string, a: string, b: string)
    requires |r| >= 1 && r[|r| - 1] == ' ' && |t| >= 1
    requires a == r[..|r| - 1] && b == t[..|t| - 1]
    ensures a + " " + b == (r + t)[..|r + t| - 1]
  {
    assert a + " " == r;
  }

  /** The rendered chunks of a non-empty list: the first chunk, then the rest. */
  lemma RenderAllCons(gs: seq<seq<string>>)
    requires gs != []
    ensures RenderAll(gs) == [Render(gs[0])] + RenderAll(gs[1..])
  {
    MapCons(Render, gs);
  }

  /** Mapping over a non-empty list: the first image, then the rest. */
  lemma MapCons<A, B>(f: A -> B, xs: seq<A>)
    requires xs != []
    ensures Map(f, xs) == [f(xs[0])] + Map(f, xs[1..])
  {
    var r, r' := Map(f, xs), Map(f, xs[1..]);
    forall k | 1 <= k < |r| ensures r[k] == r'[k - 1] {
      assert xs[k] == xs[1..][k - 1];
    }
  }

  /** `sep.join` of a list of two or more: the first, the separator, then
      the join of the rest. */
  lemma JoinCons(x: string, xs: seq<string>, sep: string)
    requires xs != []
    ensures Join([x] + xs, sep) == x + sep + Join(xs, sep)
  {
    assert ([x] + xs)[1..] == xs;
  }

  /** Every string of `raws` ends with a space. */
  predicate AllEndInSpace(raws: seq<string>) {
    forall k :: 0 <= k < |raws| ==> |raws[k]| >= 1 && raws[k][|raws[k]| - 1] == ' '
  }

  /** Each string of `raws` without its final character. */
  function DropLast(raws: seq<string>): (r: seq<string>)
    requires AllEndInSpace(raws)
    ensures |r| == |raws|
  {
    seq(|raws|, k requires 0 <= k < |raws| => raws[k][..|raws[k]| - 1])
  }

  /** Joining strings that each lose a final space with single spaces puts the
      spaces back: the result is the concatenation without its final space. */
  lemma {:induction false} JoinDropsSpaces(raws: seq<string>)
    requires raws != [] && AllEndInSpace(raws)
    ensures var t := Concat(raws); |t| >= 1 && Join(DropLast(raws), " ") == t[..|t| - 1]
  {
    var x := raws[0];
    var rest := raws[1..];
    assert Concat(raws) == x + Concat(rest);
    if rest == [] {
      assert Concat(rest) == [];
      assert DropLast(raws) == [x[..|x| - 1]];
    } else {
      assert AllEndInSpace(rest) by {
        forall k | 0 <= k < |rest| ensures |rest[k]| >= 1 && rest[k][|rest[k]| - 1] == ' ' {
          assert rest[k] == raws[k + 1];
        }
      }
      JoinDropsSpaces(rest);
      var t := Concat(rest);
      assert DropLast(raws) == [x[..|x| - 1]] + DropLast(rest);
      JoinCons(x[..|x| - 1], DropLast(rest), " ");
      JoinStep(x, t, x[..|x| - 1], Join(DropLast(rest), " "));
    }
  }

  /** The open-chunk text of each group. */
  function RawAll(gs: seq<seq<string>>): (r: seq<string>)
    ensures |r| == |gs|
  {
    seq(|gs|, k requires 0 <= k < |gs| => Raw(gs[k]))
  }

  /** The text of all sentences of the groups is the texts of the groups, one
      after the other. */
  lemma {:induction false} RawConcat(gs: seq<seq<string>>)
    ensures Raw(Concat(gs)) == Concat(RawAll(gs))
  {
    if gs != [] {
      RawConcat(gs[1..]);
      RawAppend(gs[0], Concat(gs[1..]));
      assert RawAll(gs) == [Raw(gs[0])] + RawAll(gs[1..]);
    }
  }

  /** Each closed chunk is its group's text without the final space. */
  lemma RenderAllDropsFinalSpaces(gs: seq<seq<string>>)
    requires AllGroups(gs)
    ensures AllEndInSpace(RawAll(gs)) && RenderAll(gs) == DropLast(RawAll(gs))
  {
    var raws := RawAll(gs);
    forall k | 0 <= k < |gs|
      ensures |raws[k]| >= 1 && raws[k][|raws[k]| - 1] == ' ' && RenderAll(gs)[k] == raws[k][..|raws[k]| - 1]
    {
      RenderDropsFinalSpace(gs[k]);
      RawEnds(gs[k]);
    }
    DropLastOf(raws, RenderAll(gs));
  }

  /** `rs` is `raws` with each final space dropped. */
  lemma DropLastOf(raws: seq<string>, rs: seq<string>)
    requires |rs| == |raws|
    requires forall k :: 0 <= k < |raws| ==>
      |raws[k]| >= 1 && raws[k][|raws[k]| - 1] == ' ' && rs[k] == raws[k][..|raws[k]| - 1]
    ensures AllEndInSpace(raws) && rs == DropLast(raws)
  {
  }

  /** Joining closed chunks with single spaces gives back the text of all their
      sentences, without the final space. */
  lemma JoinRendered(gs: seq<seq<string>>)
    requires gs != [] && AllGroups(gs)
    ensures var t := Raw(Concat(gs)); |t| >= 1 && Join(RenderAll(gs), " ") == t[..|t| - 1]
  {
    RenderAllDropsFinalSpaces(gs);
    JoinDropsSpaces(RawAll(gs));
    RawConcat(gs);
  }

  // ---------------------------------------------------------------------
  // Lemmas: the packing

  /** One step of packing when the sentence fits beside the open chunk. */
  lemma PackAdmit(x: string, rest: seq<string>, size: int, cur: seq<string>)
    requires |Raw(cur)| + |x| <= size
    ensures Pack([x] + rest, size, cur) == Pack(rest, size, cur + [x])
  {
    assert ([x] + rest)[1..] == rest;
  }

  /** One step of packing when the sentence does not fit: the open chunk, if
      any, is closed and the sentence opens the next. */
  lemma PackClose(x: string, rest: seq<string>, size: int, cur: seq<string>)
    requires |Raw(cur)| + |x| > size
    ensures RenderAll(Pack([x] + rest, size, cur))
      == (if cur == [] then [] else [Render(cur)]) + RenderAll(Pack(rest, size, [x]))
  {
    var tail := Pack(rest, size, [x]);
    assert Pack([x] + rest, size, cur) == (if cur == [] then [] else [cur]) + tail by {
      assert ([x] + rest)[1..] == rest;
    }
    if cur == [] {
      assert [] + tail == tail;
    } else {
      assert RenderAll([cur] + tail) == [Render(cur)] + RenderAll(tail) by {
        RenderAllCons([cur] + tail);
        assert ([cur] + tail)[1..] == tail;
      }
    }
  }

  lemma AllSentencesAppend(a: seq<string>, b: seq<string>)
    ensures AllSentences(a + b) <==> AllSentences(a) && AllSentences(b)
  {
    if AllSentences(a + b) {
      forall i | 0 <= i < |b| ensures IsSentence(b[i]) {
        assert b[i] == (a + b)[|a| + i];
      }
      forall i | 0 <= i < |a| ensures IsSentence(a[i]) {
        assert a[i] == (a + b)[i];
      }
    }
    if AllSentences(a) && AllSentences(b) {
      forall i | 0 <= i < |a + b| ensures IsSentence((a + b)[i]) {
        if i >= |a| {
          assert (a + b)[i] == b[i - |a|];
        }
      }
    }
  }

  /** Packing keeps every sentence, once, in order. */
  lemma {:induction false} PackKeepsSentences(sents: seq<string>, size: int, cur: seq<string>)
    ensures Concat(Pack(sents, size, cur)) == cur + sents
    decreases |sents|
  {
    var p := Pack(sents, size, cur);
    if sents == [] {
      if cur != [] {
        assert Concat([cur]) == cur + Concat([cur][1..]);
      }
    } else {
      var x, rest := sents[0], sents[1..];
      assert sents == [x] + rest;
      if |Raw(cur)| + |x| <= size {
        PackKeepsSentences(rest, size, cur + [x]);
        assert p == Pack(rest, size, cur + [x]);
        assert cur + [x] + rest == cur + sents;
      } else {
        PackKeepsSentences(rest, size, [x]);
        var tail := Pack(rest, size, [x]);
        if cur != [] {
          ConcatAppend([cur], tail);
          assert Concat([cur]) == cur + Concat([cur][1..]);
          assert p == [cur] + tail;
          assert Concat(p) == cur + ([x] + rest);
        } else {
          assert p == tail;
        }
      }
    }
  }

  /** Packing sentences closes only non-empty chunks of sentences. */
  lemma {:induction false} PackMakesGroups(sents: seq<string>, size: int, cur: seq<string>)
    requires AllSentences(sents) && AllSentences(cur)
    ensures AllGroups(Pack(sents, size, cur))
    decreases |sents|
  {
    var p := Pack(sents, size, cur);
    if sents != [] {
      var x, rest := sents[0], sents[1..];
      assert sents == [x] + rest;
      AllSentencesAppend([x], rest);
      if |Raw(cur)| + |x| <= size {
        AllSentencesAppend(cur, [x]);
        PackMakesGroups(rest, size, cur + [x]);
      } else {
        PackMakesGroups(rest, size, [x]);
        var tail := Pack(rest, size, [x]);
        if cur != [] {
          assert p == [cur] + tail;
          forall k | 0 <= k < |p| ensures p[k] != [] && AllSentences(p[k]) {
            if k > 0 {
              assert p[k] == tail[k - 1];
            }
          }
        } else {
          assert p == tail;
        }
      }
    }
  }

  /** The first chunk packing closes begins with the open chunk's sentences. */
  lemma {:induction false} PackStartsWithOpenChunk(sents: seq<string>, size: int, cur: seq<string>)
    requires cur != []
    ensures |Pack(sents, size, cur)| >= 1 && |Pack(sents, size, cur)[0]| >= 1
    ensures Pack(sents, size, cur)[0][0] == cur[0]
    decreases |sents|
  {
    if sents != [] && |Raw(cur)| + |sents[0]| <= size {
      PackStartsWithOpenChunk(sents[1..], size, cur + [sents[0]]);
    } else if sents != [] {
      PackStartsWithOpenChunk(sents[1..], size, [sents[0]]);
    }
  }

  /** Every chunk packing closes passed the size test for each sentence after
      its first. */
  lemma {:induction false} PackFits(sents: seq<string>, size: int, cur: seq<string>)
    requires Fits(cur, size)
    ensures forall k :: 0 <= k < |Pack(sents, size, cur)| ==> Fits(Pack(sents, size, cur)[k], size)
    decreases |sents|
  {
    if sents != [] {
      var x, rest := sents[0], sents[1..];
      if |Raw(cur)| + |x| <= size {
        var c := cur + [x];
        forall j | 0 < j < |c| ensures |Raw(c[..j])| + |c[j]| <= size {
          if j < |cur| {
            assert c[..j] == cur[..j] && c[j] == cur[j];
          } else {
            assert c[..j] == cur;
          }
        }
        PackFits(rest, size, c);
      } else {
        PackFits(rest, size, [x]);
      }
    }
  }

  /** Greedy packing: a chunk is closed only when the next sentence does not
      fit beside it. */
  lemma {:induction false} PackGreedy(sents: seq<string>, size: int, cur: seq<string>)
    ensures forall k :: 0 <= k < |Pack(sents, size, cur)| - 1 ==> ClosedWhenFull(Pack(sents, size, cur), k, size)
    decreases |sents|
  {
    var p := Pack(sents, size, cur);
    if sents != [] {
      var x, rest := sents[0], sents[1..];
      if |Raw(cur)| + |x| <= size {
        PackGreedy(rest, size, cur + [x]);
      } else {
        var tail := Pack(rest, size, [x]);
        PackGreedy(rest, size, [x]);
        if cur != [] {
          PackStartsWithOpenChunk(rest, size, [x]);
          assert p == [cur] + tail;
          forall k | 0 <= k < |p| - 1 ensures ClosedWhenFull(p, k, size) {
            if k > 0 {
              assert ClosedWhenFull(tail, k - 1, size);
              assert p[k] == tail[k - 1] && p[k + 1] == tail[k];
            } else {
              assert p[0] == cur && p[1] == tail[0];
            }
          }
        } else {
          assert p == tail;
        }
      }
    }
  }

  /** A chunk of two or more sentences that all passed the size test is at most
      one character longer than the chunk size. */
  lemma RenderedLength(g: seq<string>, size: int)
    requires |g| >= 2 && Fits(g, size) && AllSentences(g)
    ensures |Render(g)| <= size + 1
  {
    var n := |g| - 1;
    assert |Render(g)| == |Raw(g)| - 1 by {
      RenderDropsFinalSpace(g);
    }
    assert |Raw(g[..n])| + |g[n]| <= size;
    assert |Raw(g)| == |Raw(g[..n])| + |g[n]| + 2 by {
      RawSnoc(g[..n], g[n]);
      assert g[..n] + [g[n]] == g;
    }
  }

  /** The packed groups of a text: non-empty groups of sentences that together
      are the text's sentences. */
  lemma GroupsOfText(text: string, size: int)
    ensures AllGroups(Groups(text, size))
    ensures Concat(Groups(text, size)) == (if text == [] then [] else Sentences(text))
    ensures |Groups(text, size)| <= |Sentences(text)|
  {
    var gs := Groups(text, size);
    if text != [] {
      SentencesAreSentences(text);
      PackMakesGroups(Sentences(text), size, []);
      PackKeepsSentences(Sentences(text), size, []);
      ConcatLength(gs);
    }
  }

  // ---------------------------------------------------------------------
  // What create_chunks promises

  /** Empty text gives no chunks; every chunk is non-empty, trimmed and ends
      with `.`. */
  lemma ChunksWellFormed(text: string, size: int)
    ensures text == [] ==> Chunks(text, size) == []
    ensures forall k :: 0 <= k < |Chunks(text, size)| ==> WellFormedChunk(Chunks(text, size)[k])
  {
    var gs := Groups(text, size);
    GroupsOfText(text, size);
    forall k | 0 <= k < |gs| ensures WellFormedChunk(Render(gs[k])) {
      RenderDropsFinalSpace(gs[k]);
    }
  }

  /** Nothing is lost, duplicated or reordered: the chunks, in order, hold
      exactly the sentences, and joining them with single spaces gives every
      sentence followed by `". "`, stripped. This holds for every chunk size. */
  lemma ChunksRoundTrip(text: string, size: int)
    ensures Concat(Groups(text, size)) == (if text == [] then [] else Sentences(text))
    ensures Join(Chunks(text, size), " ") == (if text == [] then [] else Strip(Raw(Sentences(text))))
  {
    GroupsOfText(text, size);
    var gs := Groups(text, size);
    if text != [] {
      var sents := Sentences(text);
      SentencesAreSentences(text);
      if sents == [] {
        ConcatLength(gs);
      } else {
        JoinRendered(gs);
        RenderDropsFinalSpace(sents);
      }
    }
  }

  /** There are never more chunks than sentences. */
  lemma ChunkCount(text: string, size: int)
    ensures |Chunks(text, size)| <= |Sentences(text)|
  {
    GroupsOfText(text, size);
  }

  /** A chunk of two or more sentences is at most `size + 1` characters long; a
      chunk of one sentence (which may be longer) is that sentence and `.`. */
  lemma ChunkLength(text: string, size: int, k: nat)
    requires k < |Groups(text, size)|
    ensures |Groups(text, size)[k]| >= 2 ==> |Chunks(text, size)[k]| <= size + 1
    ensures |Groups(text, size)[k]| == 1 ==> Chunks(text, size)[k] == Groups(text, size)[k][0] + "."
  {
    var gs := Groups(text, size);
    GroupsOfText(text, size);
    assert gs[k] != [] && AllSentences(gs[k]);
    if |gs[k]| >= 2 {
      PackFits(Sentences(text), size, []);
      RenderedLength(gs[k], size);
    }
    if |gs[k]| == 1 {
      assert gs[k] == [gs[k][0]];
      RenderSingle(gs[k][0]);
    }
  }

  /** A chunk is closed only when the first sentence of the next chunk does not
      fit beside it: chunk plus its final space plus that sentence exceed the
      chunk size. */
  lemma ChunkClosedOnlyWhenFull(text: string, size: int, k: nat)
    requires k + 1 < |Groups(text, size)|
    ensures Groups(text, size)[k + 1] != []
    ensures |Chunks(text, size)[k]| + 1 + |Groups(text, size)[k + 1][0]| > size
  {
    var gs := Groups(text, size);
    GroupsOfText(text, size);
    PackGreedy(Sentences(text), size, []);
    assert ClosedWhenFull(gs, k, size);
    RenderDropsFinalSpace(gs[k]);
  }

  /** With a chunk size of zero or less no two sentences ever share a chunk:
      each sentence becomes its own chunk. */
  lemma ChunksOfNonPositiveSize(text: string, size: int)
    requires size <= 0
    ensures |Chunks(text, size)| == |Sentences(text)| || text == []
    ensures text != [] ==> forall k :: 0 <= k < |Chunks(text, size)| ==>
      Chunks(text, size)[k] == Sentences(text)[k] + "."
  {
    if text != [] {
      var sents := Sentences(text);
      SentencesAreSentences(text);
      PackNonPositive(sents, size, []);
      var gs := Groups(text, size);
      assert [] + sents == sents;
      forall k | 0 <= k < |gs| ensures Render(gs[k]) == sents[k] + "." {
        RenderSingle(sents[k]);
      }
    }
  }

  /** With no room at all, every sentence becomes a chunk of its own. */
  lemma {:induction false} PackNonPositive(sents: seq<string>, size: int, cur: seq<string>)
    requires size <= 0 && AllSentences(sents) && |cur| <= 1
    ensures |Pack(sents, size, cur)| == |cur| + |sents|
    ensures forall k :: 0 <= k < |cur| + |sents| ==> Pack(sents, size, cur)[k] == [(cur + sents)[k]]
  {
    if sents != [] {
      assert IsSentence(sents[0]);
      assert AllSentences(sents[1..]) by {
        assert forall k :: 0 <= k < |sents[1..]| ==> sents[1..][k] == sents[k + 1];
      }
      PackNonPositive(sents[1..], size, [sents[0]]);
      assert cur + sents == cur + [sents[0]] + sents[1..];
    }
  }
}
