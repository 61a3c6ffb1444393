/** The "Technical Skills" block of the résumé view. The flat skills list is
    shown as three positional bands, each as its elements joined by ", ":
    Languages are positions 0..5, Frameworks 6..9, Databases 10 onwards.
    Committing a band's text splits it at commas, trims the pieces, and
    writes them back by position. */
module SkillBands {
  import opened JsStrings
  import opened Seqs

  function Min(a: int, b: int): int { if a < b then a else b }

  function Max(a: int, b: int): int { if a < b then b else a }

  /** Where the Frameworks band starts. */
  const FrameworksStart: nat := 6

  /** Where the Databases band starts. */
  const DatabasesStart: nat := 10

  datatype Band = Languages | Frameworks | Databases

  /** `xs.slice(from, to)` for non-negative bounds, which JavaScript clamps to
      the length. */
  function Slice<T>(xs: seq<T>, from: nat, to: nat): (r: seq<T>)
    ensures from <= to <= |xs| ==> r == xs[from..to]
    ensures from <= to ==> r == xs[Min(from, |xs|)..Min(to, |xs|)]
    ensures to <= from || |xs| <= from ==> r == []
    ensures |r| <= |xs|
  {
    var a := Min(from, |xs|);
    var b := Min(to, |xs|);
    if a <= b then xs[a..b] else []
  }

  /** The skills a band shows. */
  function BandItems(skills: seq<string>, b: Band): seq<string>
  {
    match b
    case Languages => Slice(skills, 0, FrameworksStart)
    case Frameworks => Slice(skills, FrameworksStart, DatabasesStart)
    case Databases => skills[Min(DatabasesStart, |skills|)..]
  }

  /** The text a band's field shows and starts editing from. */
  function BandText(skills: seq<string>, b: Band): string
  {
    Join(BandItems(skills, b), ", ")
  }

  /** `value.split(',').map(s => s.trim())`: at least one piece, each trimmed
      and free of commas. */
  function Pieces(value: string): (r: seq<string>)
    ensures |r| >= 1
    ensures forall k :: 0 <= k < |r| ==> Trimmed(r[k]) && ',' !in r[k]
  {
    var r := Map(Split(value, [',']), Trim);
    PiecesFacts(value, r);
    r
  }

  lemma PiecesFacts(value: string, r: seq<string>)
    requires r == Map(Split(value, [',']), Trim)
    ensures forall k :: 0 <= k < |r| ==> Trimmed(r[k]) && ',' !in r[k]
  {
    var parts := Split(value, [',']);
    SplitFragmentsFree(value, ',');
    forall k | 0 <= k < |r|
      ensures Trimmed(r[k]) && ',' !in r[k]
    {
      assert r[k] == Trim(parts[k]);
      TrimKeepsAbsent(parts[k], ',');
    }
  }

  /** Text made by joining trimmed, comma-free items with ", " splits back
      into exactly those items. */
  lemma PiecesOfJoined(xs: seq<string>)
    requires |xs| > 0
    requires forall k :: 0 <= k < |xs| ==> Trimmed(xs[k]) && ',' !in xs[k]
    ensures Pieces(Join(xs, ", ")) == xs
  {
    var parts := Split(Join(xs, ", "), [',']);
    CommaJoinedParts(xs);
    TrimParts(parts, xs);
  }

  /** The comma-split of `xs` joined with ", ": the first part is the first
      item, every later part is the item behind one space. */
  lemma CommaJoinedParts(xs: seq<string>)
    requires |xs| > 0
    requires forall k :: 0 <= k < |xs| ==> ',' !in xs[k]
    ensures var parts := Split(Join(xs, ", "), [',']);
      && |parts| == |xs|
      && parts[0] == xs[0]
      && forall k :: 1 <= k < |xs| ==> parts[k] == " " + xs[k]
  {
    SplitSpacedJoin("", xs, ',');
    assert [',', ' '] == ", ";
    assert "" + Join(xs, ", ") == Join(xs, ", ");
    assert "" + xs[0] == xs[0];
  }

  lemma TrimParts(parts: seq<string>, xs: seq<string>)
    requires |parts| == |xs| > 0 && parts[0] == xs[0]
    requires forall k :: 1 <= k < |xs| ==> parts[k] == " " + xs[k]
    requires forall k :: 0 <= k < |xs| ==> Trimmed(xs[k])
    ensures Map(parts, Trim) == xs
  {
    var r := Map(parts, Trim);
    forall k | 0 <= k < |xs|
      ensures r[k] == xs[k]
    {
      TrimmedPiece(parts, xs, k);
    }
  }

  lemma TrimmedPiece(parts: seq<string>, xs: seq<string>, k: nat)
    requires k < |xs| == |parts| && Trimmed(xs[k])
    requires k == 0 ==> parts[0] == xs[0]
    requires k > 0 ==> parts[k] == " " + xs[k]
    ensures Trim(parts[k]) == xs[k]
  {
    TrimOfTrimmed(xs[k]);
    if k > 0 {
      assert AllSpace(" ");
      TrimLeadingSpace(" ", xs[k]);
    }
  }

  /** `newSkills[k] = v` on a dense array: an assignment at the length
      appends. */
  function SetOrAppend(xs: seq<string>, k: nat, v: string): (r: seq<string>)
    requires k <= |xs|
    ensures |r| == Max(|xs|, k + 1)
    ensures r[k] == v
    ensures forall j :: 0 <= j < |xs| && j != k ==> r[j] == xs[j]
  {
    if k < |xs| then xs[k := v] else xs + [v]
  }

  /** `pieces.forEach((p, i) => { if (i < width) newSkills[lo + i] = p; })`:
      the first `width` pieces overwrite positions `lo`, `lo + 1`, … in
      order, later pieces are ignored, and every other position keeps its
      skill. Writing starts at or before the end, so no hole is created. */
  function WriteBand(skills: seq<string>, lo: nat, width: nat, pieces: seq<string>): (r: seq<string>)
    requires lo <= |skills|
    ensures |r| == Max(|skills|, lo + Min(width, |pieces|))
    ensures forall j :: lo <= j < lo + Min(width, |pieces|) ==> r[j] == pieces[j - lo]
    ensures forall j :: 0 <= j < |skills| && !(lo <= j < lo + Min(width, |pieces|)) ==> r[j] == skills[j]
    decreases |pieces|
  {
    if width == 0 || |pieces| == 0 then skills
    else WriteBand(SetOrAppend(skills, lo, pieces[0]), lo + 1, width - 1, pieces[1..])
  }

  /** Committing the Languages band: positions below 6 take the pieces in
      order, pieces past the sixth are ignored, positions of the band with
      no piece keep their skill, and positions 6 onwards are untouched. */
  function CommitLanguages(skills: seq<string>, value: string): (r: seq<string>)
    ensures var n := Min(FrameworksStart, |Pieces(value)|);
      && |r| == Max(|skills|, n)
      && (forall j :: 0 <= j < n ==> r[j] == Pieces(value)[j])
      && (forall j :: n <= j < |skills| ==> r[j] == skills[j])
  {
    WriteBand(skills, 0, FrameworksStart, Pieces(value))
  }

  /** Committing the Frameworks band: positions 6..9 take the pieces in
      order, pieces past the fourth are ignored, and every other position is
      untouched. The list must already reach the band: on a shorter list
      the source's positional write leaves holes in the array. */
  function CommitFrameworks(skills: seq<string>, value: string): (r: seq<string>)
    requires |skills| >= FrameworksStart
    ensures var n := Min(DatabasesStart - FrameworksStart, |Pieces(value)|);
      && |r| == Max(|skills|, FrameworksStart + n)
      && (forall j :: 0 <= j < FrameworksStart ==> r[j] == skills[j])
      && (forall j :: 0 <= j < n ==> r[FrameworksStart + j] == Pieces(value)[j])
      && (forall j :: FrameworksStart + n <= j < |skills| ==> r[j] == skills[j])
  {
    var pieces := Pieces(value);
    var r := WriteBand(skills, FrameworksStart, DatabasesStart - FrameworksStart, pieces);
    forall j | 0 <= j < Min(DatabasesStart - FrameworksStart, |pieces|)
      ensures r[FrameworksStart + j] == pieces[j]
    {
      assert r[FrameworksStart + j] == pieces[FrameworksStart + j - FrameworksStart];
    }
    r
  }

  /** Committing the Databases band: the first ten skills (or all, if fewer)
      followed by the pieces. */
  function CommitDatabases(skills: seq<string>, value: string): (r: seq<string>)
    ensures var k := Min(DatabasesStart, |skills|);
      && |r| == k + |Pieces(value)|
      && r[..k] == skills[..k]
      && r[k..] == Pieces(value)
  {
    skills[..Min(DatabasesStart, |skills|)] + Pieces(value)
  }

  /** The band commit the view wires to each band's field. */
  function CommitBand(skills: seq<string>, b: Band, value: string): seq<string>
    requires b == Frameworks ==> |skills| >= FrameworksStart
  {
    match b
    case Languages => CommitLanguages(skills, value)
    case Frameworks => CommitFrameworks(skills, value)
    case Databases => CommitDatabases(skills, value)
  }

  /** Writing a band's own items back over it changes nothing. */
  lemma WriteBandSame(skills: seq<string>, lo: nat, width: nat, k: nat)
    requires k <= width && lo + k <= |skills|
    ensures WriteBand(skills, lo, width, skills[lo..lo + k]) == skills
  {
  }

  /** A band is clean when its items are trimmed and free of commas: then
      its displayed text splits back into them. */
  predicate CleanItems(xs: seq<string>) {
    forall k :: 0 <= k < |xs| ==> Trimmed(xs[k]) && ',' !in xs[k]
  }

  /** Committing a band's displayed text unchanged is the identity when the
      band is non-empty and clean (for Frameworks, the list must reach the
      band, as the write requires). An empty band is the exception: see
      `EmptyBandCommitAddsBlank`. */
  lemma BandRoundTrip(skills: seq<string>, b: Band)
    requires |BandItems(skills, b)| > 0
    requires CleanItems(BandItems(skills, b))
    ensures b == Frameworks ==> |skills| >= FrameworksStart
    ensures CommitBand(skills, b, BandText(skills, b)) == skills
  {
    var items := BandItems(skills, b);
    PiecesOfJoined(items);
    match b
    case Languages => LanguagesRoundTrip(skills, items);
    case Frameworks => FrameworksRoundTrip(skills, items);
    case Databases => DatabasesRoundTrip(skills, items, BandText(skills, b));
  }

  lemma DatabasesRoundTrip(skills: seq<string>, items: seq<string>, value: string)
    requires items == BandItems(skills, Databases)
    requires Pieces(value) == items
    ensures CommitDatabases(skills, value) == skills
  {
    DatabasesShape(skills, value);
    PrefixSuffix(skills, Min(DatabasesStart, |skills|));
  }

  lemma DatabasesShape(skills: seq<string>, value: string)
    ensures CommitDatabases(skills, value) == skills[..Min(DatabasesStart, |skills|)] + Pieces(value)
  {
  }

  lemma PrefixSuffix<T>(xs: seq<T>, k: nat)
    requires k <= |xs|
    ensures xs[..k] + xs[k..] == xs
  {
  }

  /** Writing the Languages band's own items back over it. */
  lemma LanguagesRoundTrip(skills: seq<string>, items: seq<string>)
    requires items == BandItems(skills, Languages)
    ensures WriteBand(skills, 0, FrameworksStart, items) == skills
  {
    assert items == skills[0..|items|];
    WriteBandSame(skills, 0, FrameworksStart, |items|);
  }

  /** Writing the Frameworks band's own items back over it; a non-empty
      band means the list reaches it. */
  lemma FrameworksRoundTrip(skills: seq<string>, items: seq<string>)
    requires items == BandItems(skills, Frameworks) && |items| > 0
    ensures |skills| >= FrameworksStart
    ensures WriteBand(skills, FrameworksStart, DatabasesStart - FrameworksStart, items) == skills
  {
    var hi := Min(DatabasesStart, |skills|);
    assert items == skills[FrameworksStart..hi];
    assert hi == FrameworksStart + |items|;
    WriteBandSame(skills, FrameworksStart, DatabasesStart - FrameworksStart, |items|);
  }

  /** Committing an empty band's text (the empty string) is not the
      identity: the empty string splits to one empty piece, which is
      written as a new, empty skill. */
  lemma EmptyBandCommitAddsBlank(skills: seq<string>, b: Band)
    requires b != Frameworks
    requires BandItems(skills, b) == []
    ensures CommitBand(skills, b, BandText(skills, b)) == skills + [""]
  {
    assert BandText(skills, b) == "";
    EmptyPieces();
    if b == Languages {
      assert skills == [];
      assert WriteBand([], 0, FrameworksStart, [""]) == [""];
    } else {
      var k := Min(DatabasesStart, |skills|);
      assert skills[k..] == [];
      assert skills[..k] == skills;
    }
  }

  /** The empty text is one empty piece. */
  lemma EmptyPieces()
    ensures Pieces("") == [""]
  {
    assert Split("", [',']) == [""];
    assert Trim("") == "";
  }
}
