/** The résumé record (`src/types/resume.ts`) and, for each record type whose
    fields the editors write by name (`{ ...e, [field]: value }`), a getter and
    a setter over an enumeration of its field names. */
module ResumeTypes {
  import opened Wrappers

  datatype ContactInfo = ContactInfo(
    fullName: string, email: string, phone: string, linkedin: string, github: string)

  datatype Experience = Experience(
    id: string, title: string, company: string, location: string,
    startDate: string, endDate: string, current: bool, achievements: seq<string>)

  /** `gpa` is optional: None is `undefined`. */
  datatype Education = Education(
    id: string, degree: string, institution: string,
    startDate: string, endDate: string, gpa: Option<string>)

  datatype Project = Project(
    id: string, title: string, description: string, link: Option<string>,
    technologies: seq<string>)

  datatype Certification = Certification(
    id: string, name: string, issuer: string, date: string, link: Option<string>)

  datatype ResumeData = ResumeData(
    contact: ContactInfo, summary: string, skills: seq<string>,
    experience: seq<Experience>, education: seq<Education>,
    projects: seq<Project>, certifications: seq<Certification>)

  /** The blank record the builder page starts from. */
  const EmptyResume: ResumeData :=
    ResumeData(ContactInfo("", "", "", "", ""), "", [], [], [], [], [])

  /** A JavaScript value stored in a record field. */
  datatype FieldValue = Text(text: string) | Flag(flag: bool) | Lines(lines: seq<string>) | Absent

  // ---------------------------------------------------------------------------
  // ContactInfo

  datatype ContactField = FullName | Email | Phone | LinkedIn | GitHub

  function ContactGet(c: ContactInfo, f: ContactField): string
  {
    match f
    case FullName => c.fullName
    case Email => c.email
    case Phone => c.phone
    case LinkedIn => c.linkedin
    case GitHub => c.github
  }

  /** `{ ...c, [f]: v }`. */
  function ContactSet(c: ContactInfo, f: ContactField, v: string): (r: ContactInfo)
    ensures ContactGet(r, f) == v
    ensures forall g :: g != f ==> ContactGet(r, g) == ContactGet(c, g)
  {
    match f
    case FullName => c.(fullName := v)
    case Email => c.(email := v)
    case Phone => c.(phone := v)
    case LinkedIn => c.(linkedin := v)
    case GitHub => c.(github := v)
  }

  /** The five named fields are the whole contact record. */
  lemma ContactExt(a: ContactInfo, b: ContactInfo)
    requires forall f :: ContactGet(a, f) == ContactGet(b, f)
    ensures a == b
  {
    assert ContactGet(a, FullName) == ContactGet(b, FullName);
    assert ContactGet(a, Email) == ContactGet(b, Email);
    assert ContactGet(a, Phone) == ContactGet(b, Phone);
    assert ContactGet(a, LinkedIn) == ContactGet(b, LinkedIn);
    assert ContactGet(a, GitHub) == ContactGet(b, GitHub);
  }

  // ---------------------------------------------------------------------------
  // Experience

  datatype ExperienceField =
    ExpTitle | ExpCompany | ExpLocation | ExpStartDate | ExpEndDate | ExpCurrent | ExpAchievements

  /** The value type the `Experience` interface declares for each field. */
  predicate ExperienceFits(f: ExperienceField, v: FieldValue) {
    match f
    case ExpCurrent => v.Flag?
    case ExpAchievements => v.Lines?
    case _ => v.Text?
  }

  function ExperienceGet(e: Experience, f: ExperienceField): (r: FieldValue)
    ensures ExperienceFits(f, r)
  {
    match f
    case ExpTitle => Text(e.title)
    case ExpCompany => Text(e.company)
    case ExpLocation => Text(e.location)
    case ExpStartDate => Text(e.startDate)
    case ExpEndDate => Text(e.endDate)
    case ExpCurrent => Flag(e.current)
    case ExpAchievements => Lines(e.achievements)
  }

  /** `{ ...e, [f]: v }`. */
  function ExperienceSet(e: Experience, f: ExperienceField, v: FieldValue): (r: Experience)
    requires ExperienceFits(f, v)
    ensures r.id == e.id
    ensures ExperienceGet(r, f) == v
    ensures forall g :: g != f ==> ExperienceGet(r, g) == ExperienceGet(e, g)
  {
    match f
    case ExpTitle => e.(title := v.text)
    case ExpCompany => e.(company := v.text)
    case ExpLocation => e.(location := v.text)
    case ExpStartDate => e.(startDate := v.text)
    case ExpEndDate => e.(endDate := v.text)
    case ExpCurrent => e.(current := v.flag)
    case ExpAchievements => e.(achievements := v.lines)
  }

  /** The id and the seven named fields are the whole entry. */
  lemma ExperienceExt(a: Experience, b: Experience)
    requires a.id == b.id
    requires forall f :: ExperienceGet(a, f) == ExperienceGet(b, f)
    ensures a == b
  {
    assert ExperienceGet(a, ExpTitle) == ExperienceGet(b, ExpTitle);
    assert ExperienceGet(a, ExpCompany) == ExperienceGet(b, ExpCompany);
    assert ExperienceGet(a, ExpLocation) == ExperienceGet(b, ExpLocation);
    assert ExperienceGet(a, ExpStartDate) == ExperienceGet(b, ExpStartDate);
    assert ExperienceGet(a, ExpEndDate) == ExperienceGet(b, ExpEndDate);
    assert ExperienceGet(a, ExpCurrent) == ExperienceGet(b, ExpCurrent);
    assert ExperienceGet(a, ExpAchievements) == ExperienceGet(b, ExpAchievements);
  }

  // ---------------------------------------------------------------------------
  // Education

  datatype EducationField = EduDegree | EduInstitution | EduStartDate | EduEndDate | EduGpa

  /** Every field is a string; the optional `gpa` may also be `undefined`. */
  predicate EducationFits(f: EducationField, v: FieldValue) {
    v.Text? || (f == EduGpa && v.Absent?)
  }

  function EducationGet(e: Education, f: EducationField): (r: FieldValue)
    ensures EducationFits(f, r)
  {
    match f
    case EduDegree => Text(e.degree)
    case EduInstitution => Text(e.institution)
    case EduStartDate => Text(e.startDate)
    case EduEndDate => Text(e.endDate)
    case EduGpa => if e.gpa.Some? then Text(e.gpa.value) else Absent
  }

  /** `{ ...e, [f]: v }`. */
  function EducationSet(e: Education, f: EducationField, v: FieldValue): (r: Education)
    requires EducationFits(f, v)
    ensures r.id == e.id
    ensures EducationGet(r, f) == v
    ensures forall g :: g != f ==> EducationGet(r, g) == EducationGet(e, g)
  {
    match f
    case EduDegree => e.(degree := v.text)
    case EduInstitution => e.(institution := v.text)
    case EduStartDate => e.(startDate := v.text)
    case EduEndDate => e.(endDate := v.text)
    case EduGpa => e.(gpa := if v.Text? then Some(v.text) else None)
  }

  /** The id and the five named fields are the whole entry. */
  lemma EducationExt(a: Education, b: Education)
    requires a.id == b.id
    requires forall f :: EducationGet(a, f) == EducationGet(b, f)
    ensures a == b
  {
    assert EducationGet(a, EduDegree) == EducationGet(b, EduDegree);
    assert EducationGet(a, EduInstitution) == EducationGet(b, EduInstitution);
    assert EducationGet(a, EduStartDate) == EducationGet(b, EduStartDate);
    assert EducationGet(a, EduEndDate) == EducationGet(b, EduEndDate);
    assert EducationGet(a, EduGpa) == EducationGet(b, EduGpa);
  }

  // ---------------------------------------------------------------------------
  // Project

  datatype ProjectField = ProjTitle | ProjDescription | ProjLink | ProjTechnologies

  predicate ProjectFits(f: ProjectField, v: FieldValue) {
    match f
    case ProjTechnologies => v.Lines?
    case ProjLink => v.Text? || v.Absent?
    case _ => v.Text?
  }

  function ProjectGet(p: Project, f: ProjectField): (r: FieldValue)
    ensures ProjectFits(f, r)
  {
    match f
    case ProjTitle => Text(p.title)
    case ProjDescription => Text(p.description)
    case ProjLink => if p.link.Some? then Text(p.link.value) else Absent
    case ProjTechnologies => Lines(p.technologies)
  }

  /** `{ ...p, [f]: v }`. */
  function ProjectSet(p: Project, f: ProjectField, v: FieldValue): (r: Project)
    requires ProjectFits(f, v)
    ensures r.id == p.id
    ensures ProjectGet(r, f) == v
    ensures forall g :: g != f ==> ProjectGet(r, g) == ProjectGet(p, g)
  {
    match f
    case ProjTitle => p.(title := v.text)
    case ProjDescription => p.(description := v.text)
    case ProjLink => p.(link := if v.Text? then Some(v.text) else None)
    case ProjTechnologies => p.(technologies := v.lines)
  }

  // ---------------------------------------------------------------------------
  // ResumeData: the top-level sections

  datatype Section =
    ContactSection | SummarySection | SkillsSection | ExperienceSection
    | EducationSection | ProjectsSection | CertificationsSection

  /** The new value of one top-level section, tagged with its section. */
  datatype SectionValue =
    | ContactValue(contact: ContactInfo)
    | SummaryValue(summary: string)
    | SkillsValue(skills: seq<string>)
    | ExperienceValue(experience: seq<Experience>)
    | EducationValue(education: seq<Education>)
    | ProjectsValue(projects: seq<Project>)
    | CertificationsValue(certifications: seq<Certification>)

  function SectionOf(v: SectionValue): Section
  {
    match v
    case ContactValue(_) => ContactSection
    case SummaryValue(_) => SummarySection
    case SkillsValue(_) => SkillsSection
    case ExperienceValue(_) => ExperienceSection
    case EducationValue(_) => EducationSection
    case ProjectsValue(_) => ProjectsSection
    case CertificationsValue(_) => CertificationsSection
  }

  function GetSection(d: ResumeData, s: Section): (r: SectionValue)
    ensures SectionOf(r) == s
  {
    match s
    case ContactSection => ContactValue(d.contact)
    case SummarySection => SummaryValue(d.summary)
    case SkillsSection => SkillsValue(d.skills)
    case ExperienceSection => ExperienceValue(d.experience)
    case EducationSection => EducationValue(d.education)
    case ProjectsSection => ProjectsValue(d.projects)
    case CertificationsSection => CertificationsValue(d.certifications)
  }

  /** `updateData(section, value)`: `{ ...data, [section]: value }`. The
      named section takes the new value and every other section is kept. */
  function UpdateData(d: ResumeData, v: SectionValue): (r: ResumeData)
    ensures GetSection(r, SectionOf(v)) == v
    ensures forall s :: s != SectionOf(v) ==> GetSection(r, s) == GetSection(d, s)
  {
    match v
    case ContactValue(c) => d.(contact := c)
    case SummaryValue(t) => d.(summary := t)
    case SkillsValue(xs) => d.(skills := xs)
    case ExperienceValue(xs) => d.(experience := xs)
    case EducationValue(xs) => d.(education := xs)
    case ProjectsValue(xs) => d.(projects := xs)
    case CertificationsValue(xs) => d.(certifications := xs)
  }

  /** The seven sections are the whole record. */
  lemma ResumeExt(a: ResumeData, b: ResumeData)
    requires forall s :: GetSection(a, s) == GetSection(b, s)
    ensures a == b
  {
    assert GetSection(a, ContactSection) == GetSection(b, ContactSection);
    assert GetSection(a, SummarySection) == GetSection(b, SummarySection);
    assert GetSection(a, SkillsSection) == GetSection(b, SkillsSection);
    assert GetSection(a, ExperienceSection) == GetSection(b, ExperienceSection);
    assert GetSection(a, EducationSection) == GetSection(b, EducationSection);
    assert GetSection(a, ProjectsSection) == GetSection(b, ProjectsSection);
    assert GetSection(a, CertificationsSection) == GetSection(b, CertificationsSection);
  }

  /** Writing a section's current value back is the identity, and two
      writes to the same section keep only the second. */
  lemma UpdateDataLaws(d: ResumeData, v: SectionValue, w: SectionValue)
    ensures UpdateData(d, GetSection(d, SectionOf(v))) == d
    ensures SectionOf(v) == SectionOf(w) ==> UpdateData(UpdateData(d, v), w) == UpdateData(d, w)
  {
    var s := SectionOf(v);
    var same := UpdateData(d, GetSection(d, s));
    forall t ensures GetSection(same, t) == GetSection(d, t) {
      if t == s {
        assert SectionOf(GetSection(d, s)) == s;
      }
    }
    ResumeExt(same, d);
    if SectionOf(v) == SectionOf(w) {
      var a := UpdateData(UpdateData(d, v), w);
      var b := UpdateData(d, w);
      forall t ensures GetSection(a, t) == GetSection(b, t) {
      }
      ResumeExt(a, b);
    }
  }

  // ---------------------------------------------------------------------------
  // Writing a field's own value back

  lemma ContactSetOwn(c: ContactInfo, f: ContactField)
    ensures ContactSet(c, f, ContactGet(c, f)) == c
  {
    ContactExt(ContactSet(c, f, ContactGet(c, f)), c);
  }

  lemma ExperienceSetOwn(e: Experience, f: ExperienceField)
    ensures ExperienceSet(e, f, ExperienceGet(e, f)) == e
  {
    ExperienceExt(ExperienceSet(e, f, ExperienceGet(e, f)), e);
  }

  lemma EducationSetOwn(e: Education, f: EducationField)
    ensures EducationSet(e, f, EducationGet(e, f)) == e
  {
    EducationExt(EducationSet(e, f, EducationGet(e, f)), e);
  }
}
