/** The glob matcher of CONFIG GET: a loop that only ever backtracks to the last star. */
module Glob {
  import opened Basics

  const QUESTION: byte := 63

  /** The meaning of a pattern: `?` is any one byte, `*` any number of bytes, the rest is literal. */
  predicate Matches(p: Bytes, t: Bytes)
    decreases |p| + |t|
  {
    if p == [] then t == []
    else if p[0] == STAR then Matches(p[1..], t) || (t != [] && Matches(p, t[1..]))
    else t != [] && (p[0] == QUESTION || p[0] == t[0]) && Matches(p[1..], t[1..])
  }

  /** The two wildcards and a literal, each on its own. */
  lemma Wildcards(t: Bytes)
    ensures Matches(Ascii("?"), t) <==> |t| == 1
    ensures Matches(Ascii("*"), t)
    ensures forall b: byte :: [b] != Ascii("?") && [b] != Ascii("*") ==> (Matches([b], t) <==> t == [b])
  {
    assert Ascii("?")[1..] == [] && Ascii("*")[1..] == [];
    StarTakesAll(t);
  }

  lemma {:induction false} StarTakesAll(t: Bytes)
    ensures Matches(Ascii("*"), t)
  {
    assert Ascii("*")[1..] == [];
    if t != [] { StarTakesAll(t[1..]); }
  }

  predicate OnlyStars(p: Bytes) {
    p != [] ==> p[0] == STAR && OnlyStars(p[1..])
  }

  /** The loop variables make sense: since the last star, pattern and text advanced in step. */
  predicate Aligned(p: Bytes, t: Bytes, pi: nat, ti: nat, star: Option<nat>, mark: nat) {
    && pi <= |p| && mark <= ti <= |t|
    && (star.Some? ==> star.value < pi && p[star.value] == STAR && pi - (star.value + 1) == ti - mark)
  }

  /** What the loop answers from a given position on. */
  predicate Run(p: Bytes, t: Bytes, pi: nat, ti: nat, star: Option<nat>, mark: nat)
    requires Aligned(p, t, pi, ti, star, mark)
    decreases |t| - mark, |p| - pi
  {
    if ti == |t| then OnlyStars(p[pi..])
    else if pi < |p| && (p[pi] == QUESTION || p[pi] == t[ti]) then Run(p, t, pi + 1, ti + 1, star, mark)
    else if pi < |p| && p[pi] == STAR then Run(p, t, pi + 1, ti, Some(pi), ti)
    else if star.Some? then Run(p, t, star.value + 1, mark + 1, star, mark + 1)
    else false
  }

  predicate GlobMatches(p: Bytes, t: Bytes) {
    Run(p, t, 0, 0, None, 0)
  }

  method GlobMatch(pattern: Bytes, text: Bytes) returns (r: bool)
    ensures r == GlobMatches(pattern, text)
    ensures STAR !in text ==> r == Matches(pattern, text)
  {
    if STAR !in text { CorrectOnPlainText(pattern, text); }
    var patternIndex: nat, textIndex: nat := 0, 0;
    var starIndex: Option<nat> := None;
    var starTextMatch: nat := 0;
    while textIndex < |text|
      invariant Aligned(pattern, text, patternIndex, textIndex, starIndex, starTextMatch)
      invariant Run(pattern, text, patternIndex, textIndex, starIndex, starTextMatch) == GlobMatches(pattern, text)
      decreases |text| - starTextMatch, |pattern| - patternIndex
    {
      if patternIndex < |pattern|
         && (pattern[patternIndex] == QUESTION || pattern[patternIndex] == text[textIndex]) {
        patternIndex := patternIndex + 1;
        textIndex := textIndex + 1;
      } else if patternIndex < |pattern| && pattern[patternIndex] == STAR {
        starIndex := Some(patternIndex);
        starTextMatch := textIndex;
        patternIndex := patternIndex + 1;
      } else if starIndex.Some? {
        patternIndex := starIndex.value + 1;
        starTextMatch := starTextMatch + 1;
        textIndex := starTextMatch;
      } else {
        return false;
      }
    }
    ghost var rest := pattern[patternIndex..];
    while patternIndex < |pattern| && pattern[patternIndex] == STAR
      invariant patternIndex <= |pattern|
      invariant OnlyStars(pattern[patternIndex..]) == OnlyStars(rest)
    {
      assert pattern[patternIndex..][1..] == pattern[patternIndex + 1..];
      patternIndex := patternIndex + 1;
    }
    return patternIndex == |pattern|;
  }

  // ---------------------------------------------------------------------------------------------
  // Backtracking to the last star is enough
  // ---------------------------------------------------------------------------------------------

  lemma {:induction false} MatchesEmptyText(p: Bytes)
    ensures Matches(p, []) == OnlyStars(p)
  {
    if p != [] {
      MatchesEmptyText(p[1..]);
    }
  }

  /** A star also matches any text that ends in one it matches. */
  lemma {:induction false} StarAbsorbs(p: Bytes, t: Bytes, k: nat)
    requires p != [] && p[0] == STAR && k <= |t| && Matches(p, t[k..])
    ensures Matches(p, t)
    decreases k
  {
    if k > 0 {
      assert t[k - 1..][1..] == t[k..];
      StarAbsorbs(p, t, k - 1);
    } else {
      assert t[0..] == t;
    }
  }

  /** Where the text taken by a leading star can end. */
  lemma {:induction false} StarEnds(p: Bytes, t: Bytes) returns (m: nat)
    requires p != [] && p[0] == STAR && Matches(p, t)
    ensures m <= |t| && Matches(p[1..], t[m..])
    decreases |t|
  {
    if Matches(p[1..], t) {
      m := 0;
      assert t[0..] == t;
    } else {
      m := StarEnds(p, t[1..]);
      assert t[1..][m..] == t[m + 1..];
      m := m + 1;
    }
  }

  /** A starless stretch of pattern consumes exactly its own length of text. */
  lemma {:induction false} StretchConsumes(p: Bytes, t: Bytes, n: nat)
    requires n <= |p| && Matches(p, t) && STAR !in p[..n]
    ensures n <= |t| && Matches(p[n..], t[n..])
    decreases n
  {
    if n > 0 {
      assert p[0] in p[..n] && p[..n] == [p[0]] + p[1..][..n - 1];
      StretchConsumes(p[1..], t[1..], n - 1);
      assert p[1..][n - 1..] == p[n..] && t[1..][n - 1..] == t[n..];
    } else {
      assert p[0..] == p && t[0..] == t;
    }
  }

  /** If the last star can still match by taking more text, the rest of the pattern matches strictly
      further on than where the loop stands. */
  lemma LaterStart(p: Bytes, t: Bytes, pi: nat, ti: nat, star: nat, mark: nat) returns (k: nat)
    requires Aligned(p, t, pi, ti, Some(star), mark) && STAR !in p[star + 1..pi]
    requires mark < |t| && Matches(p[star..], t[mark + 1..])
    ensures ti < k <= |t| && Matches(p[pi..], t[k..])
  {
    var m := StarEnds(p[star..], t[mark + 1..]);
    assert p[star..][1..] == p[star + 1..];
    assert t[mark + 1..][m..] == t[mark + 1 + m..];
    var n := pi - (star + 1);
    assert p[star + 1..][..n] == p[star + 1..pi];
    StretchConsumes(p[star + 1..], t[mark + 1 + m..], n);
    assert p[star + 1..][n..] == p[pi..] && t[mark + 1 + m..][n..] == t[mark + 1 + m + n..];
    k := mark + 1 + m + n;
  }

  lemma {:induction false} RunCorrect(p: Bytes, t: Bytes, pi: nat, ti: nat, star: Option<nat>, mark: nat)
    requires Aligned(p, t, pi, ti, star, mark) && STAR !in t
    requires star.Some? ==> STAR !in p[star.value + 1..pi]
    ensures Run(p, t, pi, ti, star, mark) <==>
            Matches(p[pi..], t[ti..]) || (star.Some? && mark < |t| && Matches(p[star.value..], t[mark + 1..]))
    decreases |t| - mark, |p| - pi
  {
    hide Matches;
    var later := star.Some? && mark < |t| && Matches(p[star.value..], t[mark + 1..]);
    if ti == |t| {
      assert t[ti..] == [];
      MatchesEmptyText(p[pi..]);
      if later {
        var k := LaterStart(p, t, pi, ti, star.value, mark);
        assert false;
      }
    } else {
      MatchesStep(p, t, pi, ti);
      if pi < |p| && (p[pi] == QUESTION || p[pi] == t[ti]) {
        assert t[ti] in t;
        if star.Some? {
          assert p[star.value + 1..pi + 1] == p[star.value + 1..pi] + [p[pi]];
        }
        RunCorrect(p, t, pi + 1, ti + 1, star, mark);
      } else if pi < |p| && p[pi] == STAR {
        assert p[pi + 1..pi + 1] == [];
        RunCorrect(p, t, pi + 1, ti, Some(pi), ti);
        if later {
          var k := LaterStart(p, t, pi, ti, star.value, mark);
          assert t[ti..][k - ti..] == t[k..];
          StarAbsorbs(p[pi..], t[ti..], k - ti);
        }
      } else if star.Some? {
        assert p[star.value + 1..star.value + 1] == [];
        RunCorrect(p, t, star.value + 1, mark + 1, star, mark + 1);
        if mark + 1 < |t| {
          MatchesStep(p, t, star.value, mark + 1);
        } else {
          assert t[mark + 1..] == [];
          MatchesEmptyText(p[star.value..]);
          MatchesEmptyText(p[star.value + 1..]);
          assert p[star.value..][1..] == p[star.value + 1..];
        }
      }
    }
  }

  /** One unfolding of Matches at a position inside the text. */
  lemma MatchesStep(p: Bytes, t: Bytes, pi: nat, ti: nat)
    requires pi <= |p| && ti < |t|
    ensures Matches(p[pi..], t[ti..]) <==>
            pi < |p| && if p[pi] == STAR then Matches(p[pi + 1..], t[ti..]) || Matches(p[pi..], t[ti + 1..])
                        else (p[pi] == QUESTION || p[pi] == t[ti]) && Matches(p[pi + 1..], t[ti + 1..])
  {
  }

  lemma CorrectOnPlainText(p: Bytes, t: Bytes)
    requires STAR !in t
    ensures GlobMatches(p, t) == Matches(p, t)
  {
    RunCorrect(p, t, 0, 0, None, 0);
    assert p[0..] == p && t[0..] == t;
  }

  // ---------------------------------------------------------------------------------------------
  // Exactly which texts are safe
  // ---------------------------------------------------------------------------------------------

  /** A star in the text is taken as a literal match for a star in the pattern, and then lost. */
  function Spoiler(t: Bytes, i: nat): (p: Bytes)
    requires i < |t|
  {
    seq(i, _ => QUESTION) + [STAR] + if i + 1 == |t| then [QUESTION] else []
  }

  lemma {:induction false} SpoilerRuns(t: Bytes, i: nat, k: nat)
    requires i < |t| && t[i] == STAR && k <= i
    ensures !Run(Spoiler(t, i), t, k, k, None, 0)
    decreases i - k
  {
    var p := Spoiler(t, i);
    if k < i {
      SpoilerRuns(t, i, k + 1);
    } else {
      assert !Run(p, t, i + 1, i + 1, None, 0) by {
        if i + 1 == |t| { assert p[i + 1..][0] == QUESTION; }
      }
    }
  }

  lemma {:induction false} StarMatchesAll(t: Bytes)
    ensures Matches([STAR], t)
  {
    MatchesEmptyText([STAR]);
    assert t[|t|..] == [];
    StarAbsorbs([STAR], t, |t|);
  }

  lemma {:induction false} SpoilerMatches(t: Bytes, i: nat, k: nat)
    requires k <= i < |t|
    ensures Matches(Spoiler(t, i)[k..], t[k..])
    decreases i - k
  {
    var p := Spoiler(t, i);
    if k < i {
      SpoilerMatches(t, i, k + 1);
      MatchesStep(p, t, k, k);
    } else if i + 1 == |t| {
      assert p[i + 1..] == [QUESTION] && t[i..] == [t[i]];
      assert Matches([QUESTION], [t[i]]);
      MatchesStep(p, t, i, i);
    } else {
      assert p[i..] == [STAR];
      StarMatchesAll(t[i..]);
    }
  }

  /** The loop judges every pattern correctly on a text if and only if the text contains no star. */
  lemma CorrectExactlyOnPlainTexts(t: Bytes)
    ensures (forall p :: GlobMatches(p, t) == Matches(p, t)) <==> STAR !in t
  {
    if STAR !in t {
      forall p ensures GlobMatches(p, t) == Matches(p, t) {
        CorrectOnPlainText(p, t);
      }
    } else {
      var i :| 0 <= i < |t| && t[i] == STAR;
      SpoilerRuns(t, i, 0);
      SpoilerMatches(t, i, 0);
      var p := Spoiler(t, i);
      assert p[0..] == p && t[0..] == t;
      assert GlobMatches(p, t) != Matches(p, t);
    }
  }
}
