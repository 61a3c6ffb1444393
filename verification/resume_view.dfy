/** The click-to-edit résumé page (`EditableResumeView`): every visible text
    of the page is an editable field, and committing a field hands the owner
    a new record. This module names the fields, says what each one shows,
    and what a commit of a text into it does to the record. The download
    dialog's file-name guard is here too. */
module ResumeView {
  import opened Wrappers
  import opened JsStrings
  import opened Seqs
  import opened ResumeTypes
  import opened ResumeForm
  import opened SkillBands
  import opened ProjectBullets

  // ---------------------------------------------------------------------------
  // contact

  /** `updateContact(field, value)`: one contact field takes the value; the
      other contact fields and every other section are kept. */
  function UpdateContact(d: ResumeData, f: ContactField, v: string): (r: ResumeData)
    ensures ContactGet(r.contact, f) == v
    ensures forall g :: g != f ==> ContactGet(r.contact, g) == ContactGet(d.contact, g)
    ensures forall s :: s != ContactSection ==> GetSection(r, s) == GetSection(d, s)
  {
    UpdateData(d, ContactValue(ContactSet(d.contact, f, v)))
  }

  // ---------------------------------------------------------------------------
  // projects, edited by id as the other entries are

  /** `projects.map(p => p.id === id ? { ...p, [f]: v } : p)`. */
  function UpdateProject(d: ResumeData, id: string, f: ProjectField, v: FieldValue): (r: ResumeData)
    requires ProjectFits(f, v)
    ensures |r.projects| == |d.projects|
    ensures forall i :: 0 <= i < |d.projects| && d.projects[i].id == id ==>
      r.projects[i] == ProjectSet(d.projects[i], f, v)
    ensures forall i :: 0 <= i < |d.projects| && d.projects[i].id != id ==>
      r.projects[i] == d.projects[i]
    ensures forall s :: s != ProjectsSection ==> GetSection(r, s) == GetSection(d, s)
  {
    UpdateData(d, ProjectsValue(
      MapWhere(d.projects, (p: Project) => p.id == id, (p: Project) => ProjectSet(p, f, v))))
  }

  /** The achievement edit: in every entry with the id, position `k` of that
      entry's own achievements takes the value. */
  function EditAchievement(d: ResumeData, id: string, k: nat, v: string): (r: ResumeData)
    ensures |r.experience| == |d.experience|
    ensures forall i :: 0 <= i < |d.experience| && d.experience[i].id == id ==>
      r.experience[i] == d.experience[i].(achievements := SetAt(d.experience[i].achievements, k, v))
    ensures forall i :: 0 <= i < |d.experience| && d.experience[i].id != id ==>
      r.experience[i] == d.experience[i]
    ensures forall s :: s != ExperienceSection ==> GetSection(r, s) == GetSection(d, s)
  {
    UpdateData(d, ExperienceValue(
      MapWhere(d.experience, (e: Experience) => e.id == id,
        (e: Experience) => e.(achievements := SetAt(e.achievements, k, v)))))
  }

  // ---------------------------------------------------------------------------
  // dates

  /** Month and year of a non-empty date string, as the browser's date
      parsing and locale formatting produce them. */
  datatype Locale = Locale(month: string -> string, year: string -> string)

  /** `formatDate`: the empty date shows as nothing, any other as
      "<month>. <year>". */
  function FormatDate(loc: Locale, date: string): (r: string)
    ensures date == "" <==> r == ""
  {
    if date == "" then "" else loc.month(date) + ". " + loc.year(date)
  }

  /** `formatDateRange`: the start, " -- ", then "Present" for a current
      role and the formatted end date otherwise. */
  function FormatDateRange(loc: Locale, start: string, end: string, current: bool): string
  {
    FormatDate(loc, start) + " -- " + (if current then "Present" else FormatDate(loc, end))
  }

  /** A range starts with the formatted start date and " -- "; a current
      role's range ends in "Present" whatever its end date, and a past role
      with no end date ends right after the separator. */
  lemma DateRangeFacts(loc: Locale, start: string, end1: string, end2: string, current: bool)
    ensures StartsWith(FormatDateRange(loc, start, end1, current), FormatDate(loc, start) + " -- ")
    ensures FormatDateRange(loc, start, end1, true) == FormatDate(loc, start) + " -- Present"
    ensures FormatDateRange(loc, start, end1, true) == FormatDateRange(loc, start, end2, true)
    ensures FormatDateRange(loc, start, "", false) == FormatDate(loc, start) + " -- "
  {
    var a := FormatDate(loc, start);
    assert a + " -- " + "Present" == a + " -- Present";
    assert a + " -- " + "" == a + " -- ";
  }

  // ---------------------------------------------------------------------------
  // the grade

  /** The grade is shown only when present and non-empty. */
  predicate GpaShown(e: Education) {
    e.gpa.Some? && e.gpa.value != ""
  }

  /** The grade's label: a percentage when the grade holds '%', a CGPA
      otherwise. */
  function GpaLabel(gpa: string): (r: string)
    ensures Contains(gpa, "%") ==> r == "Percentage: " + gpa
    ensures !Contains(gpa, "%") ==> r == "CGPA: " + gpa
  {
    if Contains(gpa, "%") then "Percentage: " + gpa else "CGPA: " + gpa
  }

  /** The grade stored on a commit: the first "Percentage: " and then the
      first "CGPA: " are removed. */
  function GpaCommit(value: string): string
  {
    ReplaceFirst(ReplaceFirst(value, "Percentage: ", ""), "CGPA: ", "")
  }

  /** Neither label occurs in "CGPA: " + g unless it occurs in g: an
      occurrence of "Percentage: " cannot start inside "CGPA: ". */
  lemma NoPercentageAfterCgpa(g: string)
    requires !Contains(g, "Percentage: ")
    ensures !Contains("CGPA: " + g, "Percentage: ")
  {
    var s := "CGPA: " + g;
    var pat := "Percentage: ";
    forall j | 0 <= j
      ensures !OccursAt(s, pat, j)
    {
      if j < 6 {
        if j + |pat| <= |s| {
          if j == 2 {
            assert s[j..j + |pat|][1] == s[3] == 'A';
          } else {
            assert s[j..j + |pat|][0] == s[j];
          }
        }
      } else {
        OccursAtShift("CGPA: ", g, pat, j - 6);
      }
    }
  }

  /** Committing the grade's label unchanged stores the grade it was made
      from, unless the grade itself holds one of the label words. */
  lemma GpaRoundTrip(gpa: string)
    requires !Contains(gpa, "Percentage: ") && !Contains(gpa, "CGPA: ")
    ensures GpaCommit(GpaLabel(gpa)) == gpa
  {
    if Contains(gpa, "%") {
      ReplacePrefix("Percentage: ", gpa);
    } else {
      NoPercentageAfterCgpa(gpa);
      ReplacePrefix("CGPA: ", gpa);
    }
  }

  // ---------------------------------------------------------------------------
  // the fields of the page

  /** Every editable field of the page. Entries are addressed by their
      position in the rendered list; a commit updates every entry that has
      the rendered entry's id. */
  datatype ViewField =
    | ContactText(contactField: ContactField)
    | EducationText(eduPos: nat, eduField: EducationField)
    | Gpa(gpaPos: nat)
    | EducationDates(eduDatesPos: nat)
    | BandLabel(labelBand: Band)
    | SkillsBand(band: Band)
    | ExperienceText(expPos: nat, expField: ExperienceField)
    | ExperienceDates(expDatesPos: nat)
    | Achievement(achPos: nat, achIndex: nat)
    | ProjectName(projPos: nat)
    | ProjectTechnologies(techPos: nat)
    | ProjectBullet(bulletPos: nat, bulletIndex: nat)

  /** The fields the page renders for a record: entry positions exist, the
      editable text fields of an entry are the ones the page shows, the
      grade field exists only for a shown grade, and achievements and
      bullets are positions of their lists. */
  predicate Rendered(d: ResumeData, f: ViewField) {
    match f
    case ContactText(_) => true
    case EducationText(i, g) => i < |d.education| && (g == EduInstitution || g == EduDegree)
    case Gpa(i) => i < |d.education| && GpaShown(d.education[i])
    case EducationDates(i) => i < |d.education|
    case BandLabel(_) => true
    case SkillsBand(_) => true
    case ExperienceText(i, g) => i < |d.experience| && (g == ExpTitle || g == ExpCompany || g == ExpLocation)
    case ExperienceDates(i) => i < |d.experience|
    case Achievement(i, k) => i < |d.experience| && k < |d.experience[i].achievements|
    case ProjectName(i) => i < |d.projects|
    case ProjectTechnologies(i) => i < |d.projects|
    case ProjectBullet(i, k) => i < |d.projects| && k < |Sentences(d.projects[i].description)|
  }

  /** The modelled domain of a commit: a Frameworks write needs the list to
      reach the band (a shorter one gets holes in the source). */
  predicate CanCommit(d: ResumeData, f: ViewField) {
    Rendered(d, f) && (f == SkillsBand(Frameworks) ==> |d.skills| >= FrameworksStart)
  }

  function LabelText(b: Band): string {
    match b
    case Languages => "Languages: "
    case Frameworks => "Frameworks: "
    case Databases => "Databases: "
  }

  /** The `value` a field is rendered with: the text its editor starts
      from. */
  function Display(d: ResumeData, f: ViewField, loc: Locale): string
    requires Rendered(d, f)
  {
    match f
    case ContactText(g) => ContactGet(d.contact, g)
    case EducationText(i, g) =>
      if g == EduInstitution then d.education[i].institution else d.education[i].degree
    case Gpa(i) => GpaLabel(d.education[i].gpa.value)
    case EducationDates(i) =>
      FormatDateRange(loc, d.education[i].startDate, d.education[i].endDate, false)
    case BandLabel(b) => LabelText(b)
    case SkillsBand(b) => BandText(d.skills, b)
    case ExperienceText(i, g) =>
      if g == ExpTitle then d.experience[i].title
      else if g == ExpCompany then d.experience[i].company
      else d.experience[i].location
    case ExperienceDates(i) =>
      var e := d.experience[i];
      FormatDateRange(loc, e.startDate, e.endDate, e.current)
    case Achievement(i, k) => d.experience[i].achievements[k]
    case ProjectName(i) => d.projects[i].title
    case ProjectTechnologies(i) => Join(d.projects[i].technologies, ", ")
    case ProjectBullet(i, k) => Bullets(d.projects[i].description)[k]
  }

  /** The section a field writes to. */
  function SectionFor(f: ViewField): Section {
    match f
    case ContactText(_) => ContactSection
    case EducationText(_, _) => EducationSection
    case Gpa(_) => EducationSection
    case EducationDates(_) => EducationSection
    case BandLabel(_) => SkillsSection
    case SkillsBand(_) => SkillsSection
    case ExperienceText(_, _) => ExperienceSection
    case ExperienceDates(_) => ExperienceSection
    case Achievement(_, _) => ExperienceSection
    case ProjectName(_) => ProjectsSection
    case ProjectTechnologies(_) => ProjectsSection
    case ProjectBullet(_, _) => ProjectsSection
  }

  /** Fields whose handler never calls the owner: the two date ranges
      (date editing is not implemented) and the band labels. */
  predicate Inert(f: ViewField) {
    f.EducationDates? || f.ExperienceDates? || f.BandLabel?
  }

  /** The entries of `r` are those of `d`, position by position, as far as
      their ids go: no entry is added, removed, moved or re-keyed. */
  predicate SameEntries(d: ResumeData, r: ResumeData) {
    && |r.experience| == |d.experience|
    && (forall i :: 0 <= i < |d.experience| ==> r.experience[i].id == d.experience[i].id)
    && |r.education| == |d.education|
    && (forall i :: 0 <= i < |d.education| ==> r.education[i].id == d.education[i].id)
    && |r.projects| == |d.projects|
    && (forall i :: 0 <= i < |d.projects| ==> r.projects[i].id == d.projects[i].id)
  }

  /** Committing `value` into a field: the record handed to the owner, or
      None when the handler does not call it. */
  function Commit(d: ResumeData, f: ViewField, value: string): (r: Option<ResumeData>)
    requires CanCommit(d, f)
    ensures r.None? <==> Inert(f)
  {
    match f
    case ContactText(g) => Some(UpdateContact(d, g, value))
    case EducationText(i, g) => Some(UpdateEducation(d, d.education[i].id, g, Text(value)))
    case Gpa(i) => Some(GpaUpdate(d, i, value))
    case EducationDates(_) => None
    case BandLabel(_) => None
    case SkillsBand(b) => Some(UpdateData(d, SkillsValue(CommitBand(d.skills, b, value))))
    case ExperienceText(i, g) => Some(UpdateExperience(d, d.experience[i].id, g, Text(value)))
    case ExperienceDates(_) => None
    case Achievement(i, k) => Some(EditAchievement(d, d.experience[i].id, k, value))
    case ProjectName(i) => Some(UpdateProject(d, d.projects[i].id, ProjTitle, Text(value)))
    case ProjectTechnologies(i) =>
      Some(UpdateProject(d, d.projects[i].id, ProjTechnologies, Lines(Pieces(value))))
    case ProjectBullet(i, k) => Some(BulletUpdate(d, i, k, value))
  }

  /** The grade handler: the label words are stripped from the committed
      text before it is stored. */
  function GpaUpdate(d: ResumeData, i: nat, value: string): ResumeData
    requires i < |d.education|
  {
    UpdateEducation(d, d.education[i].id, EduGpa, Text(GpaCommit(value)))
  }

  /** The bullet handler: the description is rebuilt from its sentences. */
  function BulletUpdate(d: ResumeData, i: nat, k: nat, value: string): ResumeData
    requires i < |d.projects| && k < |Sentences(d.projects[i].description)|
  {
    var p := d.projects[i];
    UpdateProject(d, p.id, ProjDescription, Text(CommitBullet(p.description, k, value)))
  }

  /** A commit writes only the section its field belongs to. */
  lemma CommitWritesOwnSection(d: ResumeData, f: ViewField, value: string)
    requires CanCommit(d, f)
    ensures var r := Commit(d, f, value);
      r.Some? ==> forall s :: s != SectionFor(f) ==> GetSection(r.value, s) == GetSection(d, s)
  {
  }

  /** No commit adds, removes, moves or re-keys an entry of any list. */
  lemma CommitKeepsEntries(d: ResumeData, f: ViewField, value: string)
    requires CanCommit(d, f)
    ensures Commit(d, f, value).Some? ==> SameEntries(d, Commit(d, f, value).value)
  {
    var r := Commit(d, f, value);
    match f
    case ContactText(_) =>
    case EducationText(i, g) =>
      EducationIdsKept(d, r.value, d.education[i].id, g, Text(value));
    case Gpa(i) =>
      EducationIdsKept(d, r.value, d.education[i].id, EduGpa, Text(GpaCommit(value)));
    case EducationDates(_) =>
    case BandLabel(_) =>
    case SkillsBand(_) =>
    case ExperienceText(i, g) =>
      ExperienceIdsKept(d, r.value, d.experience[i].id, g, Text(value));
    case ExperienceDates(_) =>
    case Achievement(i, k) =>
      assert forall j :: 0 <= j < |d.experience| ==> r.value.experience[j].id == d.experience[j].id;
    case ProjectName(i) =>
      ProjectIdsKept(d, r.value, d.projects[i].id, ProjTitle, Text(value));
    case ProjectTechnologies(i) =>
      ProjectIdsKept(d, r.value, d.projects[i].id, ProjTechnologies, Lines(Pieces(value)));
    case ProjectBullet(i, k) =>
      var p := d.projects[i];
      ProjectIdsKept(d, r.value, p.id, ProjDescription, Text(CommitBullet(p.description, k, value)));
  }

  lemma ExperienceIdsKept(d: ResumeData, r: ResumeData, id: string, g: ExperienceField, v: FieldValue)
    requires ExperienceFits(g, v) && r == UpdateExperience(d, id, g, v)
    ensures SameEntries(d, r)
  {
  }

  lemma EducationIdsKept(d: ResumeData, r: ResumeData, id: string, g: EducationField, v: FieldValue)
    requires EducationFits(g, v) && r == UpdateEducation(d, id, g, v)
    ensures SameEntries(d, r)
  {
  }

  lemma ProjectIdsKept(d: ResumeData, r: ResumeData, id: string, g: ProjectField, v: FieldValue)
    requires ProjectFits(g, v) && r == UpdateProject(d, id, g, v)
    ensures SameEntries(d, r)
  {
  }

  // ---------------------------------------------------------------------------
  // round trips

  predicate UniqueExperienceIds(xs: seq<Experience>) {
    forall i, j :: 0 <= i < |xs| && 0 <= j < |xs| && i != j ==> xs[i].id != xs[j].id
  }

  predicate UniqueEducationIds(xs: seq<Education>) {
    forall i, j :: 0 <= i < |xs| && 0 <= j < |xs| && i != j ==> xs[i].id != xs[j].id
  }

  predicate UniqueProjectIds(xs: seq<Project>) {
    forall i, j :: 0 <= i < |xs| && 0 <= j < |xs| && i != j ==> xs[i].id != xs[j].id
  }

  /** What a field shows right after a commit into it is the committed
      text, for every plain text field, whatever the other entries are. */
  lemma CommitThenDisplay(d: ResumeData, f: ViewField, value: string, loc: Locale)
    requires CanCommit(d, f)
    requires f.ContactText? || f.EducationText? || f.ExperienceText? || f.Achievement? || f.ProjectName?
    ensures var r := Commit(d, f, value).value;
      Rendered(r, f) && Display(r, f, loc) == value
  {
    var r := Commit(d, f, value).value;
    match f
    case ContactText(g) =>
    case EducationText(i, g) =>
      assert r.education[i] == EducationSet(d.education[i], g, Text(value));
    case ExperienceText(i, g) =>
      assert r.experience[i] == ExperienceSet(d.experience[i], g, Text(value));
    case Achievement(i, k) =>
      assert r.experience[i].achievements == SetAt(d.experience[i].achievements, k, value);
    case ProjectName(i) =>
      assert r.projects[i] == ProjectSet(d.projects[i], ProjTitle, Text(value));
  }

  /** Committing a plain text field's shown text unchanged hands the owner
      the record it already has, when entry ids are unique. */
  lemma CommitDisplayedIsIdentity(d: ResumeData, f: ViewField, loc: Locale)
    requires CanCommit(d, f)
    requires f.ContactText? || f.EducationText? || f.ExperienceText? || f.Achievement? || f.ProjectName?
    requires UniqueExperienceIds(d.experience)
    requires UniqueEducationIds(d.education)
    requires UniqueProjectIds(d.projects)
    ensures Commit(d, f, Display(d, f, loc)) == Some(d)
  {
    var r := Commit(d, f, Display(d, f, loc)).value;
    match f
    case ContactText(g) =>
      ContactSetOwn(d.contact, g);
      UpdateDataLaws(d, ContactValue(d.contact), ContactValue(d.contact));
    case EducationText(i, g) =>
      EducationSetOwn(d.education[i], g);
      SameEducation(d, r, i);
    case ExperienceText(i, g) =>
      ExperienceSetOwn(d.experience[i], g);
      SameExperience(d, r, i);
    case Achievement(i, k) =>
      var e := d.experience[i];
      assert SetAt(e.achievements, k, e.achievements[k]) == e.achievements;
      SameExperience(d, r, i);
    case ProjectName(i) =>
      assert ProjectSet(d.projects[i], ProjTitle, Text(d.projects[i].title)) == d.projects[i];
      SameProjects(d, r, i);
  }

  /** A record whose experience list differs at most at entry `i`, where
      it is unchanged, and nowhere else, is the same record. */
  lemma SameExperience(d: ResumeData, r: ResumeData, i: nat)
    requires i < |d.experience| == |r.experience|
    requires UniqueExperienceIds(d.experience)
    requires r.experience[i] == d.experience[i]
    requires forall j :: 0 <= j < |d.experience| && d.experience[j].id != d.experience[i].id ==>
      r.experience[j] == d.experience[j]
    requires forall s :: s != ExperienceSection ==> GetSection(r, s) == GetSection(d, s)
    ensures r == d
  {
    assert r.experience == d.experience;
    ResumeExt(r, d);
  }

  lemma SameEducation(d: ResumeData, r: ResumeData, i: nat)
    requires i < |d.education| == |r.education|
    requires UniqueEducationIds(d.education)
    requires r.education[i] == d.education[i]
    requires forall j :: 0 <= j < |d.education| && d.education[j].id != d.education[i].id ==>
      r.education[j] == d.education[j]
    requires forall s :: s != EducationSection ==> GetSection(r, s) == GetSection(d, s)
    ensures r == d
  {
    assert r.education == d.education;
    ResumeExt(r, d);
  }

  lemma SameProjects(d: ResumeData, r: ResumeData, i: nat)
    requires i < |d.projects| == |r.projects|
    requires UniqueProjectIds(d.projects)
    requires r.projects[i] == d.projects[i]
    requires forall j :: 0 <= j < |d.projects| && d.projects[j].id != d.projects[i].id ==>
      r.projects[j] == d.projects[j]
    requires forall s :: s != ProjectsSection ==> GetSection(r, s) == GetSection(d, s)
    ensures r == d
  {
    assert r.projects == d.projects;
    ResumeExt(r, d);
  }

  /** Committing the grade's label unchanged hands back the same record,
      when ids are unique and the grade holds neither label word. */
  lemma GpaCommitDisplayed(d: ResumeData, i: nat, loc: Locale)
    requires i < |d.education| && GpaShown(d.education[i])
    requires UniqueEducationIds(d.education)
    requires !Contains(d.education[i].gpa.value, "Percentage: ")
    requires !Contains(d.education[i].gpa.value, "CGPA: ")
    ensures Commit(d, Gpa(i), Display(d, Gpa(i), loc)) == Some(d)
  {
    var e := d.education[i];
    GpaRoundTrip(e.gpa.value);
    EducationSetOwn(e, EduGpa);
    var r := Commit(d, Gpa(i), Display(d, Gpa(i), loc)).value;
    SameEducation(d, r, i);
  }

  /** Committing a project's shown technologies unchanged hands back the
      same record, when ids are unique and the technologies are a non-empty
      list of trimmed, comma-free names. */
  lemma TechnologiesCommitDisplayed(d: ResumeData, i: nat, loc: Locale)
    requires i < |d.projects|
    requires UniqueProjectIds(d.projects)
    requires |d.projects[i].technologies| > 0
    requires CleanItems(d.projects[i].technologies)
    ensures Commit(d, ProjectTechnologies(i), Display(d, ProjectTechnologies(i), loc)) == Some(d)
  {
    var p := d.projects[i];
    PiecesOfJoined(p.technologies);
    assert ProjectSet(p, ProjTechnologies, Lines(p.technologies)) == p;
    var r := Commit(d, ProjectTechnologies(i), Display(d, ProjectTechnologies(i), loc)).value;
    SameProjects(d, r, i);
  }

  /** Committing a skills band's shown text unchanged hands back the same
      record when the band is non-empty and clean. */
  lemma BandCommitDisplayed(d: ResumeData, b: Band, loc: Locale)
    requires |BandItems(d.skills, b)| > 0
    requires CleanItems(BandItems(d.skills, b))
    ensures CanCommit(d, SkillsBand(b))
    ensures Commit(d, SkillsBand(b), Display(d, SkillsBand(b), loc)) == Some(d)
  {
    BandRoundTrip(d.skills, b);
    UpdateDataLaws(d, SkillsValue(d.skills), SkillsValue(d.skills));
  }

  /** A bullet commit of one non-blank, period-free sentence followed by a
      single period replaces that bullet of the project and keeps the other
      bullets. */
  lemma BulletCommitEffect(d: ResumeData, i: nat, k: nat, w: string)
    requires i < |d.projects| && k < |Sentences(d.projects[i].description)|
    requires '.' !in w && HasText(w)
    ensures var r := Commit(d, ProjectBullet(i, k), w + ".").value;
      Bullets(r.projects[i].description) == Bullets(d.projects[i].description)[k := Bullet(w)]
  {
    var p := d.projects[i];
    BulletEdit(p.description, k, w);
    var c := CommitBullet(p.description, k, w + ".");
    var r := Commit(d, ProjectBullet(i, k), w + ".").value;
    assert r == UpdateProject(d, p.id, ProjDescription, Text(c));
    assert r.projects[i] == ProjectSet(p, ProjDescription, Text(c));
    assert r.projects[i].description == c;
  }

  // ---------------------------------------------------------------------------
  // download

  /** The file name the download dialog opens with. */
  function DefaultFileName(d: ResumeData): (r: string)
    ensures d.contact.fullName != "" ==> r == d.contact.fullName
    ensures d.contact.fullName == "" ==> r == "resume"
  {
    if d.contact.fullName != "" then d.contact.fullName else "resume"
  }

  /** Proceeding with the download: a name that is blank after trimming
      does nothing; otherwise the file is the trimmed name with ".pdf". */
  function ProceedDownload(fileName: string): (r: Option<string>)
    ensures r.None? <==> AllSpace(fileName)
    ensures r.Some? ==> r.value == Trim(fileName) + ".pdf" && Trim(fileName) != ""
  {
    TrimEmptyIffBlank(fileName);
    if Trim(fileName) == "" then None else Some(Trim(fileName) + ".pdf")
  }

  /** Proceeding with the default name downloads "<name>.pdf" for a
      trimmed name, and "resume.pdf" when there is no name. */
  lemma DefaultDownload(d: ResumeData)
    requires Trimmed(d.contact.fullName)
    ensures d.contact.fullName != "" ==> ProceedDownload(DefaultFileName(d)) == Some(d.contact.fullName + ".pdf")
    ensures d.contact.fullName == "" ==> ProceedDownload(DefaultFileName(d)) == Some("resume.pdf")
  {
    TrimOfTrimmed(d.contact.fullName);
    assert Trimmed("resume");
    TrimOfTrimmed("resume");
    assert "resume" + ".pdf" == "resume.pdf";
  }
}
