// Text search: the escaped pattern of the forum directory and the unescaped one of thread search, against the
// meaning PostgreSQL gives LIKE and ILIKE (PostgreSQL documentation, section 9.7.1).
module Like {

  // ----- What LIKE means -----

  predicate IsMeta(c: char) {
    c == '\\' || c == '%' || c == '_'
  }

  predicate NoMeta(s: string) {
    forall i :: 0 <= i < |s| ==> !IsMeta(s[i])
  }

  // `%` stands for any run of characters, `_` for one character, and a backslash makes the next character literal.
  predicate Matches(p: string, t: string)
    decreases |p|, |t|
  {
    if p == "" then t == ""
    else if p[0] == '%' then Matches(p[1..], t) || (t != "" && Matches(p, t[1..]))
    else if p[0] == '\\' then |p| > 1 && t != "" && t[0] == p[1] && Matches(p[2..], t[1..])
    else t != "" && (p[0] == '_' || p[0] == t[0]) && Matches(p[1..], t[1..])
  }

  // PostgreSQL raises an error when the last character of a pattern is an escape with nothing to escape.
  predicate EndsInEscape(p: string) {
    if p == "" then false
    else if p[0] == '\\' then |p| == 1 || EndsInEscape(p[2..])
    else EndsInEscape(p[1..])
  }

  function FoldAll(fold: char -> char, s: string): (r: string)
    ensures |r| == |s| && forall i :: 0 <= i < |s| ==> r[i] == fold(s[i])
  {
    seq(|s|, i requires 0 <= i < |s| => fold(s[i]))
  }

  // ILIKE folds both sides and then applies LIKE.
  predicate ILike(fold: char -> char, p: string, t: string) {
    Matches(FoldAll(fold, p), FoldAll(fold, t))
  }

  // Case folding touches letters only: it moves no character onto or off the three special ones.
  ghost predicate KeepsMeta(fold: char -> char) {
    forall c: char :: (IsMeta(c) ==> fold(c) == c) && (IsMeta(fold(c)) ==> IsMeta(c))
  }

  predicate OccursAt(s: string, t: string, k: nat) {
    k + |s| <= |t| && t[k..k + |s|] == s
  }

  predicate Contains(t: string, s: string) {
    exists k: nat :: k <= |t| && OccursAt(s, t, k)
  }

  // ----- The two patterns -----

  // One pass over the text, as the string replacer does it: an inserted backslash is never itself escaped.
  function Escape(s: string): string {
    if s == "" then ""
    else (if IsMeta(s[0]) then ['\\', s[0]] else [s[0]]) + Escape(s[1..])
  }

  function ForumPattern(search: string): string {
    "%" + Escape(search) + "%"
  }

  function ThreadPattern(query: string): string {
    "%" + query + "%"
  }

  // ----- The escaped pattern means containment -----

  lemma LiteralStep(c: char, p: string, t: string)
    ensures Matches((if IsMeta(c) then ['\\', c] else [c]) + p, t) <==> t != "" && t[0] == c && Matches(p, t[1..])
  {
    var head := if IsMeta(c) then ['\\', c] else [c];
    assert (head + p)[|head|..] == p;
    assert (head + p)[0] == head[0];
  }

  lemma {:induction false} EscapedPrefixIsLiteral(s: string, rest: string, t: string)
    ensures Matches(Escape(s) + rest, t) <==> s <= t && Matches(rest, t[|s|..])
    decreases |s|
  {
    if s == "" {
      assert Escape(s) + rest == rest;
      assert t[0..] == t;
    } else {
      var head := if IsMeta(s[0]) then ['\\', s[0]] else [s[0]];
      assert Escape(s) + rest == head + (Escape(s[1..]) + rest);
      LiteralStep(s[0], Escape(s[1..]) + rest, t);
      if t != "" {
        EscapedPrefixIsLiteral(s[1..], rest, t[1..]);
        PrefixStep(s, t);
        if s <= t {
          assert t[1..][|s| - 1..] == t[|s|..];
        }
      }
    }
  }

  lemma PrefixStep(s: string, t: string)
    requires s != "" && t != ""
    ensures s <= t <==> s[0] == t[0] && s[1..] <= t[1..]
  {
    assert s == [s[0]] + s[1..] && t == [t[0]] + t[1..];
  }

  lemma {:induction false} PercentSkipsAnyPrefix(p: string, t: string)
    ensures Matches("%" + p, t) <==> exists k: nat :: k <= |t| && Matches(p, t[k..])
    decreases |t|
  {
    assert ("%" + p)[1..] == p;
    assert t[0..] == t;
    if t != "" {
      PercentSkipsAnyPrefix(p, t[1..]);
      forall k: nat | k <= |t| - 1 ensures t[1..][k..] == t[k + 1..] {}
      if k: nat :| k <= |t[1..]| && Matches(p, t[1..][k..]) {
        assert Matches(p, t[k + 1..]);
      }
      if k: nat :| k <= |t| && Matches(p, t[k..]) {
        if k > 0 {
          assert Matches(p, t[1..][k - 1..]);
        }
      }
    }
  }

  lemma PercentAloneMatchesAll(t: string)
    ensures Matches("%", t)
  {
    PercentSkipsAnyPrefix("", t);
    assert "%" + "" == "%";
    assert Matches("", t[|t|..]);
  }

  // Shape shared by both patterns: some position of the text starts a match of the middle.
  lemma WrappedMatch(middle: string, t: string)
    ensures Matches("%" + middle + "%", t) <==> exists k: nat :: k <= |t| && Matches(middle + "%", t[k..])
  {
    PercentSkipsAnyPrefix(middle + "%", t);
    assert "%" + middle + "%" == "%" + (middle + "%");
  }

  lemma EscapedMatchIsContainment(s: string, t: string)
    ensures Matches(ForumPattern(s), t) <==> Contains(t, s)
  {
    WrappedMatch(Escape(s), t);
    forall k: nat | k <= |t| ensures Matches(Escape(s) + "%", t[k..]) <==> OccursAt(s, t, k) {
      EscapedPrefixIsLiteral(s, "%", t[k..]);
      if k + |s| <= |t| {
        assert t[k..][..|s|] == t[k..k + |s|];
      }
      if s <= t[k..] {
        PercentAloneMatchesAll(t[k..][|s|..]);
      }
    }
  }

  lemma {:induction false} EscapeCommutesWithFold(fold: char -> char, s: string)
    requires KeepsMeta(fold)
    ensures FoldAll(fold, Escape(s)) == Escape(FoldAll(fold, s))
    decreases |s|
  {
    if s != "" {
      EscapeCommutesWithFold(fold, s[1..]);
      assert FoldAll(fold, s)[1..] == FoldAll(fold, s[1..]);
      var head := if IsMeta(s[0]) then ['\\', s[0]] else [s[0]];
      assert Escape(s) == head + Escape(s[1..]);
      FoldSplits(fold, head, Escape(s[1..]));
    }
  }

  lemma FoldSplits(fold: char -> char, a: string, b: string)
    ensures FoldAll(fold, a + b) == FoldAll(fold, a) + FoldAll(fold, b)
  {
  }

  // The law of the directory search: for every search text and every column value, the ILIKE filter holds
  // exactly when the search text occurs in the value, letter case aside. `%`, `_` and `\` in it are plain text.
  lemma ForumSearchIsContainment(fold: char -> char, search: string, t: string)
    requires KeepsMeta(fold)
    ensures ILike(fold, ForumPattern(search), t) <==> Contains(FoldAll(fold, t), FoldAll(fold, search))
    ensures !EndsInEscape(ForumPattern(search))
  {
    EscapeCommutesWithFold(fold, search);
    assert FoldAll(fold, ForumPattern(search)) == ForumPattern(FoldAll(fold, search));
    EscapedMatchIsContainment(FoldAll(fold, search), FoldAll(fold, t));
    EscapedTextIsClosed(search);
    assert ForumPattern(search)[1..] == Escape(search) + "%";
  }

  lemma {:induction false} EscapedTextIsClosed(s: string)
    ensures !EndsInEscape(Escape(s) + "%")
    decreases |s|
  {
    if s == "" {
      assert Escape(s) + "%" == "%";
    } else {
      EscapedTextIsClosed(s[1..]);
      var head := if IsMeta(s[0]) then ['\\', s[0]] else [s[0]];
      assert Escape(s) + "%" == head + (Escape(s[1..]) + "%");
      assert (Escape(s) + "%")[|head|..] == Escape(s[1..]) + "%";
    }
  }

  // ----- The unescaped pattern means containment only for queries without special characters -----

  lemma {:induction false} PlainTextNeedsNoEscape(s: string)
    requires NoMeta(s)
    ensures Escape(s) == s
    decreases |s|
  {
    if s != "" {
      PlainTextNeedsNoEscape(s[1..]);
    }
  }

  // A text the query matches by reading its special characters as such; `filler` answers every `_`.
  function Reading(q: string, filler: char): string
    decreases |q|
  {
    if q == "" then ""
    else if q[0] == '%' then Reading(q[1..], filler)
    else if q[0] == '_' then [filler] + Reading(q[1..], filler)
    else if q[0] != '\\' then [q[0]] + Reading(q[1..], filler)
    else if |q| == 1 then "%"
    else [q[1]] + Reading(q[2..], filler)
  }

  lemma {:induction false} ReadingMatches(q: string, filler: char)
    ensures Matches(q + "%", Reading(q, filler))
    decreases |q|
  {
    var p := q + "%";
    if q == "" {
      PercentAloneMatchesAll("");
      assert p == "%";
    } else if q[0] == '\\' {
      if |q| == 1 {
        assert p == ['\\', '%'] && p[2..] == "";
      } else {
        ReadingMatches(q[2..], filler);
        assert p[2..] == q[2..] + "%";
      }
    } else {
      ReadingMatches(q[1..], filler);
      assert p[1..] == q[1..] + "%";
    }
  }

  // A special character in the query costs a character of the reading or changes one, so the query is not in it.
  lemma {:induction false} ReadingDiffers(q: string, filler: char)
    requires filler != '_'
    ensures |Reading(q, filler)| <= |q|
    ensures Reading(q, filler) == q ==> NoMeta(q)
    decreases |q|
  {
    if q != "" {
      if q[0] == '\\' {
        if |q| > 1 {
          ReadingDiffers(q[2..], filler);
        }
      } else {
        ReadingDiffers(q[1..], filler);
        if Reading(q, filler) == q {
          assert Reading(q, filler)[1..] == Reading(q[1..], filler);
        }
      }
    }
  }

  lemma FoldOfRest(fold: char -> char, s: string, n: nat)
    requires n <= |s|
    ensures FoldAll(fold, s)[n..] == FoldAll(fold, s[n..])
  {
  }

  lemma FoldOfFirst(fold: char -> char, s: string)
    ensures s != "" ==> FoldAll(fold, s) == [fold(s[0])] + FoldAll(fold, s[1..])
  {
  }

  lemma {:induction false} FoldCommutesWithReading(fold: char -> char, q: string, filler: char)
    requires KeepsMeta(fold)
    ensures FoldAll(fold, Reading(q, filler)) == Reading(FoldAll(fold, q), fold(filler))
    decreases |q|
  {
    if q != "" {
      var n := if q[0] == '\\' && |q| > 1 then 2 else 1;
      FoldCommutesWithReading(fold, q[n..], filler);
      FoldOfRest(fold, q, n);
      FoldOfFirst(fold, Reading(q, filler));
    }
  }

  ghost predicate ThreadSearchIsContainment(fold: char -> char, query: string) {
    forall t: string :: ILike(fold, ThreadPattern(query), t) <==> Contains(FoldAll(fold, t), FoldAll(fold, query))
  }

  lemma ThreadPatternFolds(fold: char -> char, query: string)
    requires KeepsMeta(fold)
    ensures FoldAll(fold, ThreadPattern(query)) == ThreadPattern(FoldAll(fold, query))
  {
  }

  // Thread search hands the query to ILIKE unescaped. It is a containment test exactly for the queries without
  // `\`, `%` and `_`.
  lemma ThreadSearchExact(fold: char -> char, query: string)
    requires KeepsMeta(fold)
    ensures ThreadSearchIsContainment(fold, query) <==> NoMeta(query)
  {
    ThreadPatternFolds(fold, query);
    var q := FoldAll(fold, query);
    if NoMeta(query) {
      PlainTextNeedsNoEscape(q);
      forall t: string ensures ILike(fold, ThreadPattern(query), t) <==> Contains(FoldAll(fold, t), q) {
        EscapedMatchIsContainment(q, FoldAll(fold, t));
      }
    } else {
      var t := Reading(query, 'a');
      FoldCommutesWithReading(fold, query, 'a');
      var u := FoldAll(fold, t);
      ReadingMatches(q, fold('a'));
      WrappedMatch(q, u);
      assert u[0..] == u;
      assert ILike(fold, ThreadPattern(query), t);
      ReadingDiffers(q, fold('a'));
      var i :| 0 <= i < |query| && IsMeta(query[i]);
      assert IsMeta(q[i]);
      forall k: nat | k <= |u| ensures !OccursAt(q, u, k) {
        assert k == 0 && |u| == |q| ==> u[k..k + |q|] == u;
      }
    }
  }

  // Without a backslash the wildcards only widen the search: every text that contains the query is found.
  lemma ThreadSearchFindsContainment(fold: char -> char, query: string, t: string)
    requires KeepsMeta(fold)
    requires '\\' !in query
    requires Contains(FoldAll(fold, t), FoldAll(fold, query))
    ensures ILike(fold, ThreadPattern(query), t)
  {
    ThreadPatternFolds(fold, query);
    var q, u := FoldAll(fold, query), FoldAll(fold, t);
    var k: nat :| k <= |u| && OccursAt(q, u, k);
    assert u[k..] == q + u[k + |q|..];
    assert '\\' !in q;
    QueryMatchesItself(q, u[k + |q|..]);
    WrappedMatch(q, u);
  }

  lemma {:induction false} QueryMatchesItself(q: string, rest: string)
    requires '\\' !in q
    ensures Matches(q + "%", q + rest)
    decreases |q|
  {
    var p := q + "%";
    if q == "" {
      PercentAloneMatchesAll(rest);
      assert p == "%" && q + rest == rest;
    } else {
      QueryMatchesItself(q[1..], rest);
      assert p[1..] == q[1..] + "%" && (q + rest)[1..] == q[1..] + rest;
      if q[0] == '%' {
        assert Matches(p, (q + rest)[1..]);
      }
    }
  }
}
