// Normalizing a forum's tags: meant to trim, fold, deduplicate and cap them.
module ForumTags {
  const MAX_RUNES := 32
  const MAX_TAGS := 10

  // Tags are sequences of runes.
  function Cut(tag: string): string {
    if |tag| > MAX_RUNES then tag[..MAX_RUNES] else tag
  }

  predicate Distinct(tags: seq<string>) {
    forall i, j :: 0 <= i < j < |tags| ==> tags[i] != tags[j]
  }

  // One turn of the loop on a tag already trimmed and folded. The tag is compared with those kept before it is cut.
  function Take(kept: seq<string>, tag: string): seq<string> {
    if |kept| >= MAX_TAGS || tag == "" || tag in kept then kept else kept + [Cut(tag)]
  }

  function Kept(tags: seq<string>): seq<string> {
    if tags == [] then [] else Take(Kept(tags[..|tags| - 1]), tags[|tags| - 1])
  }

  function Cleaned(clean: string -> string, raw: seq<string>): seq<string> {
    seq(|raw|, i requires 0 <= i < |raw| => clean(raw[i]))
  }

  lemma {:induction false} KeptWhenFull(tags: seq<string>, n: nat)
    requires n <= |tags| && |Kept(tags[..n])| >= MAX_TAGS
    ensures Kept(tags) == Kept(tags[..n])
    decreases |tags|
  {
    if n == |tags| {
      assert tags[..n] == tags;
    } else {
      var init := tags[..|tags| - 1];
      assert init[..n] == tags[..n];
      KeptWhenFull(init, n);
    }
  }

  // `clean` trims white space and lowers the case.
  method NormalizeTags(clean: string -> string, raw: seq<string>) returns (result: seq<string>)
    ensures result == Kept(Cleaned(clean, raw))
  {
    ghost var tags := Cleaned(clean, raw);
    result := [];
    var seen: set<string> := {};
    for i := 0 to |raw|
      invariant result == Kept(tags[..i]) && |result| < MAX_TAGS
      invariant forall t :: t in seen <==> t in result
    {
      assert tags[..i + 1][..i] == tags[..i];
      var t := clean(raw[i]);
      if t == "" || t in seen {
        continue;
      }
      if |t| > MAX_RUNES {
        t := t[..MAX_RUNES];
      }
      seen := seen + {t};
      result := result + [t];
      if |result| >= MAX_TAGS {
        KeptWhenFull(tags, i + 1);
        return;
      }
    }
    assert tags[..|raw|] == tags;
  }

  // ----- What is kept -----

  ghost predicate ComesFrom(tags: seq<string>, t: string) {
    exists j :: 0 <= j < |tags| && tags[j] != "" && Cut(tags[j]) == t
  }

  lemma ComesFromOneMore(tags: seq<string>, tag: string, t: string)
    ensures ComesFrom(tags + [tag], t) <==> ComesFrom(tags, t) || (tag != "" && Cut(tag) == t)
  {
    var more := tags + [tag];
    if ComesFrom(tags, t) {
      var j :| 0 <= j < |tags| && tags[j] != "" && Cut(tags[j]) == t;
      assert more[j] == tags[j];
    }
    if tag != "" && Cut(tag) == t {
      assert more[|tags|] == tag;
    }
  }

  // At most ten tags of one to 32 runes each come out; all of them come from the input, and short of the cap nothing of
  // the input is lost.
  lemma {:induction false} KeptExactly(tags: seq<string>, t: string)
    ensures |Kept(tags)| <= MAX_TAGS
    ensures t in Kept(tags) ==> 1 <= |t| <= MAX_RUNES && ComesFrom(tags, t)
    ensures |Kept(tags)| < MAX_TAGS && ComesFrom(tags, t) ==> t in Kept(tags)
  {
    if tags != [] {
      var init, last := tags[..|tags| - 1], tags[|tags| - 1];
      assert tags == init + [last];
      KeptExactly(init, t);
      ComesFromOneMore(init, last, t);
      if last in Kept(init) {
        KeptAreShort(init, last);
      }
    }
  }

  // Tags come out in the order of their first appearance: more input only adds at the end.
  lemma {:induction false} KeptInOrder(tags: seq<string>, n: nat)
    requires n <= |tags|
    ensures Kept(tags[..n]) <= Kept(tags)
    decreases |tags|
  {
    if n == |tags| {
      assert tags[..n] == tags;
    } else {
      var init := tags[..|tags| - 1];
      assert init[..n] == tags[..n];
      KeptInOrder(init, n);
    }
  }

  lemma {:induction false} KeptAreShort(tags: seq<string>, t: string)
    requires t in Kept(tags)
    ensures 1 <= |t| <= MAX_RUNES && Cut(t) == t
  {
    var init := tags[..|tags| - 1];
    if t in Kept(init) {
      KeptAreShort(init, t);
    }
  }

  // A tag of more than 32 runes that is reached before the cap and begins like an earlier one. Nothing stops it: only
  // cut tags are remembered, and it is compared uncut.
  ghost predicate Repeats(tags: seq<string>, i: nat)
    requires i < |tags|
  {
    |tags[i]| > MAX_RUNES && |Kept(tags[..i])| < MAX_TAGS && ComesFrom(tags[..i], Cut(tags[i]))
  }

  // Deduplication works exactly if no tag repeats in that way; in particular when no tag is longer than 32 runes.
  lemma {:induction false} DistinctExactly(tags: seq<string>)
    ensures Distinct(Kept(tags)) <==> forall i :: 0 <= i < |tags| ==> !Repeats(tags, i)
  {
    if tags != [] {
      var n := |tags| - 1;
      var init, last := tags[..n], tags[n];
      DistinctExactly(init);
      forall i | 0 <= i < n ensures Repeats(init, i) <==> Repeats(tags, i) {
        assert init[..i] == tags[..i];
      }
      KeptExactly(init, Cut(last));
      LastDecides(Kept(init), last);
      if |last| > MAX_RUNES && last in Kept(init) {
        KeptAreShort(init, last);
      }
      assert (forall i :: 0 <= i < |tags| ==> !Repeats(tags, i))
        <==> !Repeats(tags, n) && forall i :: 0 <= i < n ==> !Repeats(init, i);
    }
  }

  lemma LastDecides(kept: seq<string>, tag: string)
    ensures Distinct(Take(kept, tag)) <==> Distinct(kept) && (Take(kept, tag) == kept || Cut(tag) !in kept)
  {
    var more := Take(kept, tag);
    if more != kept {
      assert more[|kept|] == Cut(tag);
      assert forall i :: 0 <= i < |kept| ==> more[i] == kept[i];
    }
  }

  // The same long tag twice is enough.
  lemma LongTagTwice(tag: string)
    requires |tag| > MAX_RUNES
    ensures Kept([tag, tag]) == [Cut(tag), Cut(tag)]
  {
    assert [tag, tag][..1] == [tag] && [tag][..0] == [];
    assert Kept([tag]) == [Cut(tag)];
  }
}
