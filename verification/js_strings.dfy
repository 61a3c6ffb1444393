/** The JavaScript string operations the résumé editor, the preview and the book
    reader rely on, with ECMAScript semantics: `split` with a string separator
    keeps empty fragments, `join`, `trim`, `indexOf`/`includes`, `startsWith`,
    `replace` with a string pattern (first occurrence only), the one regular
    expression replacement the project editor uses, and `Number#toString`
    for naturals. */
module JsStrings {
  import opened Wrappers

  /** ECMAScript WhiteSpace and LineTerminator code points: the characters
      `String#trim` strips and the regular-expression class `\s` matches. */
  predicate IsSpace(c: char) {
    var n := c as int;
    n == 0x09 || n == 0x0A || n == 0x0B || n == 0x0C || n == 0x0D || n == 0x20
    || n == 0xA0 || n == 0x1680 || (0x2000 <= n <= 0x200A)
    || n == 0x2028 || n == 0x2029 || n == 0x202F || n == 0x205F
    || n == 0x3000 || n == 0xFEFF
  }

  predicate AllSpace(s: string) {
    forall i :: 0 <= i < |s| ==> IsSpace(s[i])
  }

  /** Neither end of `s` is whitespace. */
  predicate Trimmed(s: string) {
    s == [] || (!IsSpace(s[0]) && !IsSpace(s[|s| - 1]))
  }

  // ---------------------------------------------------------------------------
  // trim

  function TrimStart(s: string): (r: string)
    ensures |r| <= |s| && r == s[|s| - |r|..]
    ensures AllSpace(s[..|s| - |r|])
    ensures r == [] || !IsSpace(r[0])
    decreases |s|
  {
    if |s| > 0 && IsSpace(s[0]) then
      var r := TrimStart(s[1..]);
      assert s[1..][|s| - 1 - |r|..] == s[|s| - |r|..];
      assert s[..|s| - |r|] == [s[0]] + s[1..][..|s| - 1 - |r|];
      AllSpaceConcat([s[0]], s[1..][..|s| - 1 - |r|]);
      r
    else s
  }

  function TrimEnd(s: string): (r: string)
    ensures |r| <= |s| && r == s[..|r|]
    ensures AllSpace(s[|r|..])
    ensures r == [] || !IsSpace(r[|r| - 1])
    decreases |s|
  {
    if |s| > 0 && IsSpace(s[|s| - 1]) then
      var r := TrimEnd(s[..|s| - 1]);
      assert s[..|s| - 1][..|r|] == s[..|r|];
      assert s[|r|..] == s[..|s| - 1][|r|..] + [s[|s| - 1]];
      AllSpaceConcat(s[..|s| - 1][|r|..], [s[|s| - 1]]);
      r
    else s
  }

  lemma AllSpaceConcat(a: string, b: string)
    requires AllSpace(a) && AllSpace(b)
    ensures AllSpace(a + b)
  {
    forall i | 0 <= i < |a + b|
      ensures IsSpace((a + b)[i])
    {
      if i < |a| {
        assert (a + b)[i] == a[i];
      } else {
        assert (a + b)[i] == b[i - |a|];
      }
    }
  }

  /** `s.trim()`: the infix of `s` left after removing leading and trailing
      whitespace. */
  function Trim(s: string): (r: string)
    ensures |r| <= |s|
    ensures Trimmed(r)
  {
    TrimStart(TrimEnd(s))
  }

  /** The truthiness of `s.trim()`, the filter the views use to skip blank
      text: something is left after trimming. */
  predicate HasText(s: string) {
    Trim(s) != ""
  }

  /** Trailing whitespace after a text whose last character is not
      whitespace is exactly what `TrimEnd` removes. */
  lemma {:induction false} TrimEndPadded(a: string, q: string)
    requires AllSpace(q)
    requires a == [] || !IsSpace(a[|a| - 1])
    ensures TrimEnd(a + q) == a
    decreases |q|
  {
    if |q| > 0 {
      assert (a + q)[..|a + q| - 1] == a + q[..|q| - 1];
      TrimEndPadded(a, q[..|q| - 1]);
    } else {
      assert a + q == a;
    }
  }

  /** Leading whitespace before a text whose first character is not
      whitespace is exactly what `TrimStart` removes. */
  lemma {:induction false} TrimStartPadded(p: string, b: string)
    requires AllSpace(p)
    requires b == [] || !IsSpace(b[0])
    ensures TrimStart(p + b) == b
    decreases |p|
  {
    if |p| > 0 {
      assert (p + b)[1..] == p[1..] + b;
      TrimStartPadded(p[1..], b);
    } else {
      assert p + b == b;
    }
  }

  /** A reference characterisation of `trim`: whatever the split of `s` into
      whitespace, a core with non-blank ends, and whitespace, `Trim` returns
      that core. */
  lemma TrimOfPadded(p: string, core: string, q: string)
    requires AllSpace(p) && AllSpace(q) && Trimmed(core)
    ensures Trim(p + core + q) == core
  {
    if core == [] {
      assert p + core + q == p + q;
      TrimEndPadded([], p + q);
      assert [] + (p + q) == p + q;
      TrimStartPadded([], []);
    } else {
      assert (p + core)[|p + core| - 1] == core[|core| - 1];
      TrimEndPadded(p + core, q);
      TrimStartPadded(p, core);
    }
  }

  /** A string with no whitespace at either end is its own trim. */
  lemma TrimOfTrimmed(s: string)
    requires Trimmed(s)
    ensures Trim(s) == s
  {
    TrimOfPadded([], s, []);
    assert [] + s + [] == s;
  }

  /** The trim of an all-whitespace string is empty, and conversely. */
  lemma TrimEmptyIffBlank(s: string)
    ensures Trim(s) == [] <==> AllSpace(s)
  {
    if AllSpace(s) {
      BlankTrimsEmpty(s);
    }
    if Trim(s) == [] {
      EmptyTrimIsBlank(s);
    }
  }

  lemma BlankTrimsEmpty(s: string)
    requires AllSpace(s)
    ensures Trim(s) == []
  {
    TrimOfPadded([], [], s);
    assert [] + [] + s == s;
  }

  lemma EmptyTrimIsBlank(s: string)
    requires Trim(s) == []
    ensures AllSpace(s)
  {
    var e := TrimEnd(s);
    assert e[..|e|] == e;
    assert AllSpace(e);
    assert e == [];
    assert s[|e|..] == s;
  }

  /** `trim` is idempotent. */
  lemma TrimIdempotent(s: string)
    ensures Trim(Trim(s)) == Trim(s)
  {
    TrimOfTrimmed(Trim(s));
  }

  /** Splits `s` into leading whitespace, its trim, and trailing whitespace. */
  lemma TrimDecompose(s: string) returns (lead: string, t: string, tail: string)
    ensures s == lead + t + tail
    ensures AllSpace(lead) && AllSpace(tail) && t == Trim(s)
  {
    var e := TrimEnd(s);
    t := TrimStart(e);
    var k := |e| - |t|;
    lead, tail := s[..k], s[|e|..];
    assert e == s[..|e|];
    assert t == e[k..];
    assert lead == e[..k];
    assert e == lead + t;
    assert s == e + tail;
  }

  lemma ConcatAssoc(p: string, a: string, b: string, c: string)
    ensures p + (a + b + c) == (p + a) + b + c
  {
  }

  /** Trimming never introduces a character. */
  lemma TrimKeepsAbsent(s: string, c: char)
    requires c !in s
    ensures c !in Trim(s)
  {
    var lead, t, tail := TrimDecompose(s);
    forall i | 0 <= i < |t|
      ensures t[i] != c
    {
      assert t[i] == s[|lead| + i];
    }
  }

  /** Leading whitespace does not change the trim. */
  lemma TrimLeadingSpace(p: string, s: string)
    requires AllSpace(p)
    ensures Trim(p + s) == Trim(s)
  {
    var lead, t, tail := TrimDecompose(s);
    assert AllSpace(p + lead);
    ConcatAssoc(p, lead, t, tail);
    TrimOfPadded(p + lead, t, tail);
  }

  // ---------------------------------------------------------------------------
  // indexOf, includes, startsWith

  predicate OccursAt(s: string, pat: string, i: int) {
    0 <= i && i + |pat| <= |s| && s[i..i + |pat|] == pat
  }

  function IndexFrom(s: string, pat: string, from: nat): (r: Option<nat>)
    requires from <= |s|
    ensures r.Some? ==> from <= r.value && OccursAt(s, pat, r.value)
    ensures r.Some? ==> forall j :: from <= j < r.value ==> !OccursAt(s, pat, j)
    ensures r.None? ==> forall j :: from <= j ==> !OccursAt(s, pat, j)
    decreases |s| - from
  {
    if from + |pat| > |s| then None
    else if s[from..from + |pat|] == pat then Some(from)
    else IndexFrom(s, pat, from + 1)
  }

  /** `s.indexOf(pat)` as an option: the leftmost occurrence, if any. */
  function IndexOf(s: string, pat: string): (r: Option<nat>)
    ensures r.Some? ==> OccursAt(s, pat, r.value)
    ensures r.Some? ==> forall j :: 0 <= j < r.value ==> !OccursAt(s, pat, j)
    ensures r.None? ==> forall j :: !OccursAt(s, pat, j)
  {
    IndexFrom(s, pat, 0)
  }

  /** `s.includes(pat)`. */
  predicate Contains(s: string, pat: string) {
    IndexOf(s, pat).Some?
  }

  /** `s.startsWith(p)`. */
  predicate StartsWith(s: string, p: string) {
    |p| <= |s| && s[..|p|] == p
  }

  /** A single character occurs as a substring exactly when it is an element. */
  lemma ContainsChar(s: string, c: char)
    ensures Contains(s, [c]) <==> c in s
  {
    if c in s {
      var i :| 0 <= i < |s| && s[i] == c;
      assert OccursAt(s, [c], i);
    }
    if Contains(s, [c]) {
      var i := IndexOf(s, [c]).value;
      assert s[i] == s[i..i + 1][0] == c;
    }
  }

  /** An occurrence inside the second half of a concatenation is an
      occurrence in the concatenation, and one lying entirely inside the
      second half is one of that half. */
  lemma OccursAtShift(a: string, b: string, pat: string, j: int)
    requires 0 <= j
    ensures OccursAt(a + b, pat, |a| + j) <==> OccursAt(b, pat, j)
  {
    if j + |pat| <= |b| {
      assert (a + b)[|a| + j..|a| + j + |pat|] == b[j..j + |pat|];
    }
  }

  // ---------------------------------------------------------------------------
  // replace (string pattern)

  /** `s.replace(pat, rep)` with a string pattern and a replacement string
      free of `$` patterns: only the leftmost occurrence is replaced. */
  function ReplaceFirst(s: string, pat: string, rep: string): (r: string)
    ensures !Contains(s, pat) ==> r == s
    ensures Contains(s, pat) ==> |r| == |s| - |pat| + |rep|
    ensures Contains(s, pat) ==> var i := IndexOf(s, pat).value;
      && r[..i] == s[..i]
      && r[i..i + |rep|] == rep
      && r[i + |rep|..] == s[i + |pat|..]
  {
    match IndexOf(s, pat)
    case None => s
    case Some(i) => s[..i] + rep + s[i + |pat|..]
  }

  /** Removing a pattern from the front of a string restores the rest. */
  lemma ReplacePrefix(pat: string, t: string)
    ensures ReplaceFirst(pat + t, pat, "") == t
  {
    assert OccursAt(pat + t, pat, 0);
    assert (pat + t)[|pat|..] == t;
  }

  // ---------------------------------------------------------------------------
  // split and join

  /** `xs.join(sep)`; the join of an empty array is the empty string. */
  function Join(xs: seq<string>, sep: string): string
  {
    if |xs| == 0 then ""
    else if |xs| == 1 then xs[0]
    else xs[0] + sep + Join(xs[1..], sep)
  }

  lemma JoinCons(x: string, ys: seq<string>, sep: string)
    requires |ys| > 0
    ensures Join([x] + ys, sep) == x + sep + Join(ys, sep)
  {
    assert ([x] + ys)[1..] == ys;
  }

  /** `s.split(sep)` for a non-empty string separator: fragments between the
      leftmost non-overlapping occurrences, empty fragments kept, and the empty
      string splits to one empty fragment. */
  function Split(s: string, sep: string): (r: seq<string>)
    requires |sep| > 0
    ensures |r| >= 1
    decreases |s|
  {
    match IndexOf(s, sep)
    case None => [s]
    case Some(i) => [s[..i]] + Split(s[i + |sep|..], sep)
  }

  /** Joining the fragments of a split with the same separator gives back the
      original string, for every string and every separator. */
  lemma {:induction false} JoinSplit(s: string, sep: string)
    requires |sep| > 0
    ensures Join(Split(s, sep), sep) == s
    decreases |s|
  {
    var o := IndexOf(s, sep);
    if o.Some? {
      var i := o.value;
      var rest := s[i + |sep|..];
      assert Split(s, sep) == [s[..i]] + Split(rest, sep);
      JoinSplit(rest, sep);
      JoinCons(s[..i], Split(rest, sep), sep);
      assert s[i..i + |sep|] == sep;
      assert s == s[..i] + s[i..i + |sep|] + rest;
    }
  }

  /** For a one-character separator: splitting a joined list gives the list
      back, provided the list is non-empty and no element holds the
      separator. */
  lemma {:induction false} SplitJoin(xs: seq<string>, c: char)
    requires |xs| > 0
    requires forall k :: 0 <= k < |xs| ==> c !in xs[k]
    ensures Split(Join(xs, [c]), [c]) == xs
    decreases |xs|
  {
    if |xs| == 1 {
      ContainsChar(xs[0], c);
    } else {
      var rest := Join(xs[1..], [c]);
      var s := xs[0] + [c] + rest;
      assert Join(xs, [c]) == s;
      SplitHead(xs[0], rest, c);
      SplitJoin(xs[1..], c);
      assert xs == [xs[0]] + xs[1..];
    }
  }

  /** Splitting `a + c + b` where `a` has no `c` peels `a` off the front. */
  lemma SplitHead(a: string, b: string, c: char)
    requires c !in a
    ensures Split(a + [c] + b, [c]) == [a] + Split(b, [c])
  {
    var s := a + [c] + b;
    assert OccursAt(s, [c], |a|) by { assert s[|a|..|a| + 1] == [c]; }
    forall j | 0 <= j < |a|
      ensures !OccursAt(s, [c], j)
    {
      assert s[j..j + 1][0] == a[j];
    }
    assert IndexOf(s, [c]) == Some(|a|);
    assert s[..|a|] == a;
    assert s[|a| + 1..] == b;
  }

  /** No fragment of a split on a one-character separator holds that
      character. */
  lemma {:induction false} SplitFragmentsFree(s: string, c: char)
    ensures forall k :: 0 <= k < |Split(s, [c])| ==> c !in Split(s, [c])[k]
    decreases |s|
  {
    var o := IndexOf(s, [c]);
    if o.None? {
      ContainsChar(s, c);
    } else {
      var i := o.value;
      var rest := s[i + 1..];
      SplitFragmentsFree(rest, c);
      assert Split(s, [c]) == [s[..i]] + Split(rest, [c]);
      forall j | 0 <= j < i
        ensures s[..i][j] != c
      {
        assert !OccursAt(s, [c], j);
        assert s[j..j + 1] == [s[j]];
      }
    }
  }

  /** Splitting text joined with a character followed by a space, after a
      prefix: the first fragment carries the prefix, every later fragment
      starts with the space. */
  lemma {:induction false} SplitSpacedJoin(p: string, xs: seq<string>, c: char)
    requires |xs| > 0
    requires c != ' ' && c !in p
    requires forall k :: 0 <= k < |xs| ==> c !in xs[k]
    ensures |Split(p + Join(xs, [c, ' ']), [c])| == |xs|
    ensures Split(p + Join(xs, [c, ' ']), [c])[0] == p + xs[0]
    ensures forall k :: 1 <= k < |xs| ==> Split(p + Join(xs, [c, ' ']), [c])[k] == " " + xs[k]
    decreases |xs|
  {
    if |xs| == 1 {
      ContainsChar(p + xs[0], c);
    } else {
      var tail := Join(xs[1..], [c, ' ']);
      SpacedJoinStep(p, xs, c);
      SplitHead(p + xs[0], " " + tail, c);
      SplitSpacedJoin(" ", xs[1..], c);
      ShiftSpaced(Split(p + Join(xs, [c, ' ']), [c]), p + xs[0], Split(" " + tail, [c]), xs);
    }
  }

  lemma SpacedJoinStep(p: string, xs: seq<string>, c: char)
    requires |xs| > 1
    ensures p + Join(xs, [c, ' ']) == (p + xs[0]) + [c] + (" " + Join(xs[1..], [c, ' ']))
  {
    var tail := Join(xs[1..], [c, ' ']);
    assert Join(xs, [c, ' ']) == xs[0] + [c, ' '] + tail;
  }

  /** Putting a head in front of the split of the rest shifts its
      fragments by one position. */
  lemma ShiftSpaced(r: seq<string>, h: string, rest: seq<string>, xs: seq<string>)
    requires |xs| > 1 && r == [h] + rest
    requires |rest| == |xs[1..]| && rest[0] == " " + xs[1..][0]
    requires forall k :: 1 <= k < |xs[1..]| ==> rest[k] == " " + xs[1..][k]
    ensures |r| == |xs| && r[0] == h
    ensures forall k :: 1 <= k < |xs| ==> r[k] == " " + xs[k]
  {
    forall k | 1 <= k < |xs|
      ensures r[k] == " " + xs[k]
    {
      assert r[k] == rest[k - 1];
      assert xs[k] == xs[1..][k - 1];
    }
  }

  // ---------------------------------------------------------------------------
  // the regular-expression replacement `s.replace(/\.\s*$/, '.')`

  /** A period at `p` followed only by whitespace up to the end: a match of
      the pattern `\.\s*$` starting at `p`. */
  predicate FinalPeriodAt(s: string, p: int) {
    0 <= p < |s| && s[p] == '.' && AllSpace(s[p + 1..])
  }

  /** `s.replace(/\.\s*$/, '.')`: when the text ends in a period followed
      only by whitespace, that whitespace is dropped; otherwise nothing
      changes. */
  function DropSpaceAfterFinalPeriod(s: string): (r: string)
    ensures forall p :: FinalPeriodAt(s, p) ==> r == s[..p + 1]
    ensures (forall p :: !FinalPeriodAt(s, p)) ==> r == s
  {
    var t := TrimEnd(s);
    if |t| > 0 && t[|t| - 1] == '.' then
      assert FinalPeriodAt(s, |t| - 1) by {
        assert s[|t|..] == s[|t| - 1 + 1..];
      }
      FinalPeriodUnique(s, |t| - 1);
      t
    else
      NoFinalPeriod(s);
      s
  }

  lemma FinalPeriodUnique(s: string, p: int)
    requires FinalPeriodAt(s, p)
    ensures forall q :: FinalPeriodAt(s, q) ==> q == p
  {
    forall q | 0 <= q < |s| && q != p
      ensures !FinalPeriodAt(s, q)
    {
      if q < p {
        assert s[q + 1..][p - q - 1] == s[p] == '.';
      } else {
        assert s[p + 1..][q - p - 1] == s[q];
      }
    }
  }

  lemma NoFinalPeriod(s: string)
    requires var t := TrimEnd(s); !(|t| > 0 && t[|t| - 1] == '.')
    ensures forall p :: !FinalPeriodAt(s, p)
  {
    var t := TrimEnd(s);
    forall p | 0 <= p < |s|
      ensures !FinalPeriodAt(s, p)
    {
      if p < |t| - 1 {
        assert s[p + 1..][|t| - 1 - p - 1] == s[|t| - 1] == t[|t| - 1];
      } else if p >= |t| {
        assert s[|t|..][p - |t|] == s[p];
      } else {
        assert t[|t| - 1] == s[p];
      }
    }
  }

  // ---------------------------------------------------------------------------
  // Number#toString for naturals

  function DigitChar(d: nat): char
    requires d < 10
  {
    "0123456789"[d]
  }

  function DigitValue(c: char): nat
  {
    if '0' <= c <= '9' then (c as int - '0' as int) as nat else 0
  }

  /** The decimal text of `n`, as JavaScript prints an integer. */
  function NatToString(n: nat): (r: string)
    ensures |r| >= 1
    ensures forall i :: 0 <= i < |r| ==> '0' <= r[i] <= '9'
  {
    if n < 10 then [DigitChar(n)] else NatToString(n / 10) + [DigitChar(n % 10)]
  }

  /** The value of a string of decimal digits. */
  function ParseDecimal(s: string): nat
  {
    if |s| == 0 then 0 else ParseDecimal(s[..|s| - 1]) * 10 + DigitValue(s[|s| - 1])
  }

  lemma {:induction false} ParseNatToString(n: nat)
    ensures ParseDecimal(NatToString(n)) == n
  {
    if n >= 10 {
      var s := NatToString(n);
      ParseNatToString(n / 10);
      assert s[..|s| - 1] == NatToString(n / 10);
      assert DigitValue(DigitChar(n % 10)) == n % 10;
    } else {
      assert DigitValue(DigitChar(n)) == n;
    }
  }
}
