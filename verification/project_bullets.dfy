/** The bullet list of a project in the résumé view. A project's description
    is one string; the view shows each sentence of it (the pieces between
    periods that hold any text) as a bullet ending in a period. Committing a
    bullet rewrites the description: the sentences are re-derived, the edited
    one is replaced by the new text with its first period removed, and they
    are joined with ". " again. */
module ProjectBullets {
  import opened JsStrings
  import opened Seqs
  import opened Wrappers

  /** `description.split('.').filter(sentence => sentence.trim())`: every
      sentence holds some text and no period. */
  function Sentences(desc: string): (r: seq<string>)
    ensures forall k :: 0 <= k < |r| ==> HasText(r[k]) && '.' !in r[k]
  {
    var parts := Split(desc, ".");
    SplitFragmentsFree(desc, '.');
    var r := Keep(parts, HasText);
    forall k | 0 <= k < |r|
      ensures HasText(r[k]) && '.' !in r[k]
    {
      assert r[k] in r;
    }
    r
  }

  /** The text shown for one sentence: `sentence.trim() + '.'`. */
  function Bullet(sentence: string): (b: string)
    ensures |b| > 0 && b[|b| - 1] == '.'
    ensures b[..|b| - 1] == Trim(sentence)
  {
    Trim(sentence) + "."
  }

  /** The bullets a description shows, in order. */
  function Bullets(desc: string): (r: seq<string>)
    ensures |r| == |Sentences(desc)|
    ensures forall k :: 0 <= k < |r| ==> r[k] == Bullet(Sentences(desc)[k])
  {
    Map(Sentences(desc), Bullet)
  }

  /** Committing `value` for the bullet at `index`: the sentence is replaced
      by `value` with its first period removed, the sentences are joined
      with ". ", and a final period followed only by whitespace loses that
      whitespace. The bullet's index comes from the rendered list, so it is
      a position of the sentence list. */
  function CommitBullet(desc: string, index: nat, value: string): string
    requires index < |Sentences(desc)|
  {
    var sentences := Sentences(desc)[index := ReplaceFirst(value, ".", "")];
    DropSpaceAfterFinalPeriod(Join(sentences, ". "))
  }

  // ---------------------------------------------------------------------------
  // proofs

  /** Removing the first period from text that ends in its only period
      gives the text before it. */
  lemma ReplaceOnlyPeriod(w: string)
    requires '.' !in w
    ensures ReplaceFirst(w + ".", ".", "") == w
  {
    var s := w + ".";
    assert OccursAt(s, ".", |w|);
    forall j | 0 <= j < |w|
      ensures !OccursAt(s, ".", j)
    {
      assert s[j..j + 1] == [w[j]];
    }
    assert IndexOf(s, ".") == Some(|w|);
    assert s[..|w|] == w;
  }

  /** Whitespace in front of text does not change whether it has text. */
  lemma SpacedHasText(x: string)
    requires HasText(x)
    ensures HasText(" " + x) && Trim(" " + x) == Trim(x)
  {
    assert AllSpace(" ");
    TrimLeadingSpace(" ", x);
  }

  /** A join ends with its last element. */
  lemma {:induction false} JoinLast(xs: seq<string>, sep: string) returns (a: string)
    requires |xs| > 0
    ensures Join(xs, sep) == a + xs[|xs| - 1]
    decreases |xs|
  {
    if |xs| == 1 {
      a := "";
    } else {
      var a' := JoinLast(xs[1..], sep);
      a := xs[0] + sep + a';
    }
  }

  /** Text ending in period-free text that is not all whitespace has no
      final period: the regular expression does not match. */
  lemma NoFinalPeriodBeforeText(a: string, b: string)
    requires '.' !in b && HasText(b)
    ensures forall p :: !FinalPeriodAt(a + b, p)
  {
    var s := a + b;
    TrimEmptyIffBlank(b);
    var j :| 0 <= j < |b| && !IsSpace(b[j]);
    forall p | 0 <= p < |s|
      ensures !FinalPeriodAt(s, p)
    {
      if p < |a| {
        assert s[p + 1..][|a| - p - 1 + j] == b[j];
      } else {
        assert s[p] == b[p - |a|];
      }
    }
  }

  /** Sentences joined with ". " are their own re-derivation: the first
      comes back as it is, every later one behind the space of the
      separator. */
  lemma SentencesOfJoined(xs: seq<string>)
    requires |xs| > 0
    requires forall k :: 0 <= k < |xs| ==> HasText(xs[k]) && '.' !in xs[k]
    ensures var r := Sentences(Join(xs, ". "));
      && |r| == |xs|
      && r[0] == xs[0]
      && forall k :: 1 <= k < |xs| ==> r[k] == " " + xs[k]
  {
    var text := Join(xs, ". ");
    SplitSpacedJoin("", xs, '.');
    assert ['.', ' '] == ". ";
    assert "" + text == text;
    assert "" + xs[0] == xs[0];
    var parts := Split(text, ".");
    forall k | 0 <= k < |parts|
      ensures HasText(parts[k])
    {
      if k > 0 {
        SpacedHasText(xs[k]);
      }
    }
    KeepAll(parts, HasText);
  }

  /** What the committed description looks like when the new text `w` has
      no period: the plain join, without a final period. */
  lemma CommitPlain(desc: string, index: nat, w: string)
    requires index < |Sentences(desc)|
    requires '.' !in w && HasText(w)
    ensures CommitBullet(desc, index, w + ".") == Join(Sentences(desc)[index := w], ". ")
    ensures forall p :: !FinalPeriodAt(CommitBullet(desc, index, w + "."), p)
  {
    ReplaceOnlyPeriod(w);
    var xs := Sentences(desc)[index := w];
    var a := JoinLast(xs, ". ");
    NoFinalPeriodBeforeText(a, xs[|xs| - 1]);
  }

  /** The bullets of sentences joined with ". " are the sentences' own
      bullets. */
  lemma BulletsOfJoined(xs: seq<string>)
    requires |xs| > 0
    requires forall k :: 0 <= k < |xs| ==> HasText(xs[k]) && '.' !in xs[k]
    ensures Bullets(Join(xs, ". ")) == Map(xs, Bullet)
  {
    SentencesOfJoined(xs);
    var r := Sentences(Join(xs, ". "));
    SameBullets(r, xs);
  }

  lemma SameBullets(r: seq<string>, xs: seq<string>)
    requires |r| == |xs| > 0 && r[0] == xs[0]
    requires forall k :: 1 <= k < |xs| ==> r[k] == " " + xs[k]
    requires forall k :: 0 <= k < |xs| ==> HasText(xs[k])
    ensures Map(r, Bullet) == Map(xs, Bullet)
  {
    forall k | 1 <= k < |xs|
      ensures Bullet(r[k]) == Bullet(xs[k])
    {
      SpacedHasText(xs[k]);
    }
  }

  /** Committing a bullet as one sentence `w` followed by a period replaces
      exactly that bullet by `w` trimmed with a period, and leaves every
      other bullet as it was. */
  lemma BulletEdit(desc: string, index: nat, w: string)
    requires index < |Sentences(desc)|
    requires '.' !in w && HasText(w)
    ensures Bullets(CommitBullet(desc, index, w + ".")) == Bullets(desc)[index := Bullet(w)]
  {
    var ss := Sentences(desc);
    var xs := ss[index := w];
    CommitPlain(desc, index, w);
    var xs' := UpdatedSentences(ss, index, w);
    BulletsOfJoined(xs);
    MapUpdate(ss, index, w, Bullet);
    assert Bullets(desc) == Map(ss, Bullet);
  }

  /** Replacing a sentence by one with text and no period keeps every
      sentence so. */
  lemma UpdatedSentences(ss: seq<string>, index: nat, w: string) returns (xs: seq<string>)
    requires index < |ss|
    requires forall k :: 0 <= k < |ss| ==> HasText(ss[k]) && '.' !in ss[k]
    requires '.' !in w && HasText(w)
    ensures xs == ss[index := w]
    ensures forall k :: 0 <= k < |xs| ==> HasText(xs[k]) && '.' !in xs[k]
  {
    xs := ss[index := w];
  }

  /** Committing a bullet's own text unchanged leaves the bullets as they
      were (the description itself is normalised). */
  lemma BulletCommitUnchanged(desc: string, index: nat)
    requires index < |Sentences(desc)|
    ensures Bullets(CommitBullet(desc, index, Bullets(desc)[index])) == Bullets(desc)
  {
    var s := Sentences(desc)[index];
    var w := Trim(s);
    TrimKeepsAbsent(s, '.');
    TrimIdempotent(s);
    var v := Bullets(desc)[index];
    assert v == w + ".";
    BulletEdit(desc, index, w);
    assert Bullet(w) == v;
    UpdateSame(Bullets(desc), index);
  }

  /** An ordinary bullet commit leaves the description without a final
      period: the join never ends in one, so the regular expression never
      fires. The bullets still show one period each. */
  lemma CommittedEndsWithoutPeriod(desc: string, index: nat, w: string)
    requires index < |Sentences(desc)|
    requires '.' !in w && HasText(w)
    ensures var r := CommitBullet(desc, index, w + ".");
      |r| > 0 && r[|r| - 1] != '.'
  {
    CommitPlain(desc, index, w);
    var xs := Sentences(desc)[index := w];
    var a := JoinLast(xs, ". ");
    var n := |xs| - 1;
    assert '.' !in xs[n] && HasText(xs[n]) by {
      if n != index {
        assert xs[n] == Sentences(desc)[n];
      }
    }
    EndsInText(a, xs[n]);
  }

  lemma EndsInText(a: string, b: string)
    requires '.' !in b && HasText(b)
    ensures |a + b| > 0 && (a + b)[|a + b| - 1] != '.'
  {
    TrimEmptyIffBlank(b);
    var n := |b| - 1;
    var c := b[n];
    assert c in b;
    assert (a + b)[|a| + n] == c;
  }
}
