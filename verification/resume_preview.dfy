/** The read-only résumé preview (`ResumePreview`): the text it derives from
    the record. A field or line whose value is empty is left out, the
    header falls back to a placeholder name, achievements that are blank are
    skipped and a leading bullet character is stripped, and a section with
    nothing in it is not shown at all. */
module ResumePreview {
  import opened Wrappers
  import opened JsStrings
  import opened Seqs
  import opened ResumeTypes
  import opened ResumeView

  /** The name of the exported file: the full name, or "resume" when there
      is none, with ".pdf". */
  function ExportFileName(d: ResumeData): (r: string)
    ensures d.contact.fullName != "" ==> r == d.contact.fullName + ".pdf"
    ensures d.contact.fullName == "" ==> r == "resume.pdf"
  {
    (if d.contact.fullName != "" then d.contact.fullName else "resume") + ".pdf"
  }

  /** The preview's export and the editable page's download agree on the
      file name whenever the name needs no trimming. */
  lemma ExportNamesAgree(d: ResumeData)
    requires Trimmed(d.contact.fullName)
    ensures ProceedDownload(DefaultFileName(d)) == Some(ExportFileName(d))
  {
    DefaultDownload(d);
  }

  /** For a name with whitespace at either end the two disagree: the
      preview exports the name as typed, while the editable page downloads
      the trimmed name, or nothing at all when the name is only
      whitespace. */
  lemma ExportNamesDifferWhenPadded(d: ResumeData)
    requires !Trimmed(d.contact.fullName)
    ensures var n := d.contact.fullName;
      && ExportFileName(d) == n + ".pdf"
      && (AllSpace(n) ==> ProceedDownload(DefaultFileName(d)).None?)
      && (!AllSpace(n) ==> ProceedDownload(DefaultFileName(d)) == Some(Trim(n) + ".pdf"))
      && ProceedDownload(DefaultFileName(d)) != Some(ExportFileName(d))
  {
    var n := d.contact.fullName;
    assert Trim(n) != n;
    SuffixCancel(Trim(n), n, ".pdf");
  }

  lemma SuffixCancel(a: string, b: string, t: string)
    ensures a + t == b + t ==> a == b
  {
    if a + t == b + t {
      assert a == (a + t)[..|a|];
      assert b == (b + t)[..|b|];
    }
  }

  /** The heading: the full name, or "Your Name" when there is none. */
  function HeaderName(d: ResumeData): (r: string)
    ensures r != ""
    ensures d.contact.fullName != "" ==> r == d.contact.fullName
    ensures d.contact.fullName == "" ==> r == "Your Name"
  {
    if d.contact.fullName != "" then d.contact.fullName else "Your Name"
  }

  /** A line shown only when its value is non-empty. */
  function LineIf(value: string, prefix: string): (r: seq<string>)
    ensures value == "" ==> r == []
    ensures value != "" ==> r == [prefix + value]
  {
    if value != "" then [prefix + value] else []
  }

  /** The contact lines under the heading, in order: email, phone, the
      LinkedIn line and the GitHub line, each only when its field is
      non-empty. */
  function ContactLines(c: ContactInfo): seq<string>
  {
    LineIf(c.email, "") + LineIf(c.phone, "") + LineIf(c.linkedin, "LinkedIn: ")
      + LineIf(c.github, "GitHub: ")
  }

  function Present(value: string): nat {
    if value != "" then 1 else 0
  }

  /** There is one contact line per non-empty field, and the LinkedIn and
      GitHub lines carry their labels. */
  lemma ContactLinesFacts(c: ContactInfo)
    ensures |ContactLines(c)| == Present(c.email) + Present(c.phone) + Present(c.linkedin) + Present(c.github)
    ensures c.linkedin != "" ==> "LinkedIn: " + c.linkedin in ContactLines(c)
    ensures c.github != "" ==> "GitHub: " + c.github in ContactLines(c)
    ensures c.email != "" ==> c.email in ContactLines(c)
    ensures c.phone != "" ==> c.phone in ContactLines(c)
  {
    assert "" + c.email == c.email;
    assert "" + c.phone == c.phone;
  }

  // ---------------------------------------------------------------------------
  // dates

  /** The preview formats a non-empty date as the browser's short month and
      numeric year; the empty date shows as nothing. */
  function PreviewDate(fmt: string -> string, date: string): (r: string)
    ensures date == "" ==> r == ""
  {
    if date == "" then "" else fmt(date)
  }

  /** The date line of an experience entry. */
  function ExperienceDates(fmt: string -> string, e: Experience): string
  {
    PreviewDate(fmt, e.startDate) + " - " + (if e.current then "Present" else PreviewDate(fmt, e.endDate))
  }

  /** A current role's line ends in "Present" and does not depend on the
      end date; a past role's line ends with its formatted end date. */
  lemma ExperienceDatesFacts(fmt: string -> string, e: Experience, end: string)
    ensures e.current ==> ExperienceDates(fmt, e) == PreviewDate(fmt, e.startDate) + " - Present"
    ensures e.current ==> ExperienceDates(fmt, e.(endDate := end)) == ExperienceDates(fmt, e)
    ensures !e.current && e.endDate == "" ==> ExperienceDates(fmt, e) == PreviewDate(fmt, e.startDate) + " - "
  {
    var a := PreviewDate(fmt, e.startDate);
    assert a + " - " + "Present" == a + " - Present";
    assert a + " - " + "" == a + " - ";
  }

  // ---------------------------------------------------------------------------
  // achievements

  /** How one listed achievement is shown: one starting with '•' loses that
      character and is trimmed; any other is shown as it is. */
  function ShowAchievement(a: string): (r: string)
    ensures !StartsWith(a, "•") ==> r == a
    ensures StartsWith(a, "•") ==> r == Trim(a[1..]) && Trimmed(r)
  {
    if StartsWith(a, "•") then Trim(a[1..]) else a
  }

  /** The achievements an entry lists: the ones with text, in their order,
      each as `ShowAchievement` shows it. */
  function ShownAchievements(xs: seq<string>): (r: seq<string>)
    ensures |r| == |Keep(xs, HasText)| <= |xs|
    ensures forall k :: 0 <= k < |r| ==> r[k] == ShowAchievement(Keep(xs, HasText)[k])
  {
    Map(Keep(xs, HasText), ShowAchievement)
  }

  /** Listing distributes over concatenation: the listed achievements keep
      their relative order. */
  lemma ShownAppend(xs: seq<string>, ys: seq<string>)
    ensures ShownAchievements(xs + ys) == ShownAchievements(xs) + ShownAchievements(ys)
  {
    KeepAppend(xs, ys, HasText);
    MapAppend(Keep(xs, HasText), Keep(ys, HasText), ShowAchievement);
  }

  lemma {:induction false} MapAppend<T, U>(xs: seq<T>, ys: seq<T>, f: T -> U)
    ensures Map(xs + ys, f) == Map(xs, f) + Map(ys, f)
  {
    if |xs| > 0 {
      assert (xs + ys)[1..] == xs[1..] + ys;
      MapAppend(xs[1..], ys, f);
    } else {
      assert xs + ys == ys;
    }
  }

  /** A blank achievement is never listed, and one with text and no
      leading bullet is listed exactly as written. */
  lemma ShownSingle(a: string)
    ensures !HasText(a) ==> ShownAchievements([a]) == []
    ensures HasText(a) && !StartsWith(a, "•") ==> ShownAchievements([a]) == [a]
  {
    assert [a][1..] == [];
  }

  /** An achievement that is only the bullet character passes the blank
      filter (the bullet is not whitespace) and is listed as an empty
      item. */
  lemma BareBulletListedEmpty()
    ensures ShownAchievements(["•"]) == [""]
  {
    var a := "•";
    assert !IsSpace(a[0]);
    assert Trim(a) == a by {
      assert Trimmed(a);
      TrimOfTrimmed(a);
    }
    assert a[1..] == "";
    ShownSingle(a);
    assert StartsWith(a, "•");
  }

  // ---------------------------------------------------------------------------
  // lines of entries

  /** The grade line of an education entry, shown only for a non-empty
      grade. */
  function GpaLine(e: Education): (r: Option<string>)
    ensures r.Some? <==> GpaShown(e)
    ensures r.Some? ==> r.value == "GPA: " + e.gpa.value
  {
    if e.gpa.Some? && e.gpa.value != "" then Some("GPA: " + e.gpa.value) else None
  }

  /** A project's technologies line, shown only when it has technologies. */
  function TechnologiesLine(p: Project): (r: Option<string>)
    ensures r.Some? <==> |p.technologies| > 0
    ensures r.Some? ==> r.value == "Technologies: " + Join(p.technologies, ", ")
  {
    if |p.technologies| > 0 then Some("Technologies: " + Join(p.technologies, ", ")) else None
  }

  /** A project's link line, shown only for a non-empty link. */
  function LinkLine(p: Project): (r: Option<string>)
    ensures r.Some? <==> p.link.Some? && p.link.value != ""
    ensures r.Some? ==> r.value == "Link: " + p.link.value
  {
    if p.link.Some? && p.link.value != "" then Some("Link: " + p.link.value) else None
  }

  // ---------------------------------------------------------------------------
  // sections

  datatype PreviewSection = Summary | Skills | Work | Schooling | Projects | Certifications

  /** Where each section sits on the page. */
  function Rank(s: PreviewSection): nat
  {
    match s
    case Summary => 0
    case Skills => 1
    case Work => 2
    case Schooling => 3
    case Projects => 4
    case Certifications => 5
  }

  /** Whether a section has anything to show. */
  predicate HasContent(d: ResumeData, s: PreviewSection) {
    match s
    case Summary => d.summary != ""
    case Skills => |d.skills| > 0
    case Work => |d.experience| > 0
    case Schooling => |d.education| > 0
    case Projects => |d.projects| > 0
    case Certifications => |d.certifications| > 0
  }

  function IfContent(d: ResumeData, s: PreviewSection): (r: seq<PreviewSection>)
    ensures HasContent(d, s) ==> r == [s]
    ensures !HasContent(d, s) ==> r == []
  {
    if HasContent(d, s) then [s] else []
  }

  predicate Ranked(xs: seq<PreviewSection>) {
    forall i, j :: 0 <= i < j < |xs| ==> Rank(xs[i]) < Rank(xs[j])
  }

  /** Appending a section placed below everything already listed keeps
      the list in page order. */
  lemma RankedSnoc(xs: seq<PreviewSection>, d: ResumeData, s: PreviewSection)
    requires Ranked(xs)
    requires forall x :: x in xs ==> Rank(x) < Rank(s)
    ensures Ranked(xs + IfContent(d, s))
  {
    var r := xs + IfContent(d, s);
    forall i, j | 0 <= i < j < |r|
      ensures Rank(r[i]) < Rank(r[j])
    {
      if j >= |xs| {
        assert r[i] in xs;
      }
    }
  }

  /** The sections the preview shows, top to bottom: exactly those with
      content, each once, in page order. */
  function VisibleSections(d: ResumeData): (r: seq<PreviewSection>)
    ensures forall s :: s in r <==> HasContent(d, s)
    ensures Ranked(r)
  {
    var r1 := IfContent(d, Summary);
    var r2 := r1 + IfContent(d, Skills);
    RankedSnoc(r1, d, Skills);
    var r3 := r2 + IfContent(d, Work);
    RankedSnoc(r2, d, Work);
    var r4 := r3 + IfContent(d, Schooling);
    RankedSnoc(r3, d, Schooling);
    var r5 := r4 + IfContent(d, Projects);
    RankedSnoc(r4, d, Projects);
    var r6 := r5 + IfContent(d, Certifications);
    RankedSnoc(r5, d, Certifications);
    forall s
      ensures s in r6 <==> HasContent(d, s)
    {
      InSnoc(r1, d, Skills, s);
      InSnoc(r2, d, Work, s);
      InSnoc(r3, d, Schooling, s);
      InSnoc(r4, d, Projects, s);
      InSnoc(r5, d, Certifications, s);
    }
    r6
  }

  lemma InSnoc(xs: seq<PreviewSection>, d: ResumeData, t: PreviewSection, s: PreviewSection)
    ensures s in xs + IfContent(d, t) <==> s in xs || (s == t && HasContent(d, t))
  {
  }

  /** The skills section's one line: the skills joined by " • ". */
  function SkillsLine(d: ResumeData): string
  {
    Join(d.skills, " • ")
  }

  /** An empty record shows no section at all and the placeholder name. */
  lemma EmptyPreview()
    ensures VisibleSections(EmptyResume) == []
    ensures HeaderName(EmptyResume) == "Your Name"
    ensures ExportFileName(EmptyResume) == "resume.pdf"
  {
  }

  /** Adding a skill to a record without skills makes the skills section
      appear, showing just that skill. */
  lemma FirstSkillShowsSection(d: ResumeData, input: string)
    requires |d.skills| == 0 && HasText(input)
    ensures var r := ResumeForm.AddSkill(d, input).emitted;
      r.Some? && Skills in VisibleSections(r.value) && SkillsLine(r.value) == Trim(input)
  {
    TrimEmptyIffBlank(input);
    var r := ResumeForm.AddSkill(d, input).emitted.value;
    assert r.skills == [Trim(input)];
  }
}
