// Mentions in a post: what the regular expression `@(\w+)` finds, leftmost first, greedy and without overlaps.
module Mentions {

  predicate IsWord(c: char) {
    'a' <= c <= 'z' || 'A' <= c <= 'Z' || '0' <= c <= '9' || c == '_'
  }

  // A match covers `start` up to but not including `end`; its capture is everything after the `@`.
  datatype Match = Match(start: nat, end: nat)

  predicate AllWord(s: string, from: nat, to: nat)
    requires to <= |s|
  {
    forall i :: from <= i < to ==> IsWord(s[i])
  }

  predicate IsMatch(s: string, m: Match) {
    && m.start + 1 < m.end <= |s|
    && s[m.start] == '@'
    && AllWord(s, m.start + 1, m.end)
  }

  // What a search for all matches from position `from` must return: each time the leftmost match, of the greatest
  // length, and then on from its end.
  ghost predicate LeftmostGreedy(s: string, from: nat, found: seq<Match>)
    decreases |found|
  {
    if found == [] then forall m :: IsMatch(s, m) ==> m.start < from
    else
      var first := found[0];
      && from <= first.start
      && IsMatch(s, first)
      && (forall m :: IsMatch(s, m) && m.start >= from ==> first.start <= m.start)
      && (forall m :: IsMatch(s, m) && m.start == first.start ==> m.end <= first.end)
      && LeftmostGreedy(s, first.end, found[1..])
  }

  // ----- What users mean by a mention -----

  predicate StartsMention(s: string, i: nat) {
    i + 1 < |s| && s[i] == '@' && IsWord(s[i + 1])
  }

  // End of the run of word characters that goes on at `i`.
  function RunEnd(s: string, i: nat): (e: nat)
    requires i <= |s|
    ensures i <= e <= |s| && AllWord(s, i, e)
    ensures e < |s| ==> !IsWord(s[e])
    decreases |s| - i
  {
    if i < |s| && IsWord(s[i]) then RunEnd(s, i + 1) else i
  }

  // Every `@` directly followed by a word character, in order, with the whole run of word characters after it.
  function AllMentions(s: string, from: nat): seq<Match>
    decreases |s| - from
  {
    if from >= |s| then []
    else if StartsMention(s, from) then [Match(from, RunEnd(s, from + 1))] + AllMentions(s, from + 1)
    else AllMentions(s, from + 1)
  }

  function Capture(s: string, m: Match): string
    requires IsMatch(s, m)
  {
    s[m.start + 1..m.end]
  }

  lemma MatchStartsMention(s: string, m: Match)
    requires IsMatch(s, m)
    ensures StartsMention(s, m.start) && m.end <= RunEnd(s, m.start + 1)
  {
  }

  // No mention starts inside a run of word characters.
  lemma {:induction false} SkipWords(s: string, from: nat, to: nat)
    requires from <= to <= |s| && AllWord(s, from, to)
    ensures AllMentions(s, from) == AllMentions(s, to)
    decreases |s| - from
  {
    if from < to {
      SkipWords(s, from + 1, to);
    }
  }

  lemma {:induction false} NoMentionsMeansNoMatches(s: string, from: nat)
    ensures AllMentions(s, from) == [] <==> forall m :: IsMatch(s, m) ==> m.start < from
    decreases |s| - from
  {
    if from < |s| {
      NoMentionsMeansNoMatches(s, from + 1);
      if StartsMention(s, from) {
        assert IsMatch(s, Match(from, RunEnd(s, from + 1)));
      } else {
        forall m | IsMatch(s, m) && m.start < from + 1 ensures m.start < from {
          MatchStartsMention(s, m);
        }
      }
    }
  }

  // The first mention is the leftmost greedy match.
  lemma {:induction false} FirstMention(s: string, from: nat)
    requires AllMentions(s, from) != []
    ensures var first := AllMentions(s, from)[0];
      && from <= first.start && IsMatch(s, first) && first.end == RunEnd(s, first.start + 1)
      && (forall m :: IsMatch(s, m) && m.start >= from ==> first.start <= m.start)
      && AllMentions(s, from)[1..] == AllMentions(s, first.end)
    decreases |s| - from
  {
    if StartsMention(s, from) {
      var end := RunEnd(s, from + 1);
      SkipWords(s, from + 1, end);
    } else {
      FirstMention(s, from + 1);
      forall m | IsMatch(s, m) && m.start >= from ensures m.start >= from + 1 {
        MatchStartsMention(s, m);
      }
    }
  }

  // The search finds exactly the mentions: although it never looks inside what it has matched, it misses none, and
  // no other answer is leftmost, greedy and without overlaps.
  lemma {:induction false} SearchFindsExactlyTheMentions(s: string, from: nat, found: seq<Match>)
    ensures LeftmostGreedy(s, from, found) <==> found == AllMentions(s, from)
    decreases |found|
  {
    var all := AllMentions(s, from);
    NoMentionsMeansNoMatches(s, from);
    if all != [] {
      FirstMention(s, from);
      forall m | IsMatch(s, m) && m.start == all[0].start ensures m.end <= all[0].end {
        MatchStartsMention(s, m);
      }
    }
    if found != [] {
      SearchFindsExactlyTheMentions(s, found[0].end, found[1..]);
      if LeftmostGreedy(s, from, found) {
        assert all != [];
        assert found[0] == all[0];
        assert found == [found[0]] + found[1..] && all == [all[0]] + all[1..];
      }
    }
  }

  lemma {:induction false} MentionsAreMatches(s: string, from: nat)
    ensures forall m :: m in AllMentions(s, from) ==>
      from <= m.start && IsMatch(s, m) && m.end == RunEnd(s, m.start + 1)
    decreases |s| - from
  {
    if from < |s| {
      MentionsAreMatches(s, from + 1);
    }
  }

  // Nothing is missed.
  lemma {:induction false} EveryMentionIsFound(s: string, from: nat, p: nat)
    requires from <= p && StartsMention(s, p)
    ensures Match(p, RunEnd(s, p + 1)) in AllMentions(s, from)
    decreases |s| - from
  {
    if from < p {
      EveryMentionIsFound(s, from + 1, p);
    }
  }

  // Matches do not overlap, and come in the order of the text.
  lemma {:induction false} MentionsInOrder(s: string, from: nat)
    ensures var all := AllMentions(s, from);
      forall i, j :: 0 <= i < j < |all| ==> all[i].end <= all[j].start
    decreases |s| - from
  {
    var all := AllMentions(s, from);
    if from < |s| {
      MentionsInOrder(s, from + 1);
      if StartsMention(s, from) {
        var end := RunEnd(s, from + 1);
        SkipWords(s, from + 1, end);
        MentionsAreMatches(s, end);
        var rest := AllMentions(s, from + 1);
        assert all == [Match(from, end)] + rest;
        forall i, j | 0 <= i < j < |all| ensures all[i].end <= all[j].start {
          assert all[j] == rest[j - 1] && all[j] in rest;
          if i > 0 {
            assert all[i] == rest[i - 1];
          }
        }
      } else {
        assert all == AllMentions(s, from + 1);
      }
    }
  }

  // ----- The words captured -----

  // The word characters of the ASCII class, by their codes.
  lemma WordCharacters(c: char)
    ensures IsWord(c) <==>
      48 <= c as int <= 57 || 65 <= c as int <= 90 || c as int == 95 || 97 <= c as int <= 122
  {
  }

  // At position `at` somebody is mentioned by this word: an at sign, then the word, and no word character after it.
  predicate IsMention(s: string, at: nat, word: string) {
    && at < |s| && s[at] == '@'
    && word != "" && (forall i :: 0 <= i < |word| ==> IsWord(word[i]))
    && word <= s[at + 1..]
    && (at + 1 + |word| < |s| ==> !IsWord(s[at + 1 + |word|]))
  }

  // The capture is what stands between the at sign and the end of the match.
  lemma CaptureIsTheRest(s: string, m: Match)
    requires IsMatch(s, m)
    ensures s[..m.start] + "@" + Capture(s, m) + s[m.end..] == s
  {
  }

  lemma CapturesMention(s: string, m: Match)
    requires m in AllMentions(s, 0)
    ensures IsMatch(s, m) && IsMention(s, m.start, Capture(s, m))
  {
    MentionsAreMatches(s, 0);
    assert s[m.start + 1..][..|Capture(s, m)|] == Capture(s, m);
  }

  lemma MentionIsCaptured(s: string, at: nat, word: string)
    requires IsMention(s, at, word)
    ensures var m := Match(at, at + 1 + |word|);
      m in AllMentions(s, 0) && IsMatch(s, m) && Capture(s, m) == word
  {
    assert forall i :: 0 <= i < |word| ==> s[at + 1 + i] == s[at + 1..][i] == word[i];
    RunIsTheWord(s, at + 1, at + 1 + |word|);
    EveryMentionIsFound(s, 0, at);
    MentionsAreMatches(s, 0);
  }

  lemma {:induction false} RunIsTheWord(s: string, from: nat, to: nat)
    requires from <= to <= |s| && AllWord(s, from, to) && (to < |s| ==> !IsWord(s[to]))
    ensures RunEnd(s, from) == to
    decreases |s| - from
  {
    if from < to {
      RunIsTheWord(s, from + 1, to);
    }
  }

  // The words a search captures are exactly those by which somebody is mentioned.
  lemma CapturesExactly(s: string, found: seq<Match>, word: string)
    requires LeftmostGreedy(s, 0, found)
    ensures (exists m :: m in found && IsMatch(s, m) && Capture(s, m) == word)
      <==> exists at: nat :: IsMention(s, at, word)
  {
    SearchFindsExactlyTheMentions(s, 0, found);
    if m :| m in found && IsMatch(s, m) && Capture(s, m) == word {
      CapturesMention(s, m);
    }
    if at: nat :| IsMention(s, at, word) {
      MentionIsCaptured(s, at, word);
    }
  }
}
