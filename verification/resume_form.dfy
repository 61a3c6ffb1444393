/** The form editor of the résumé builder (`ResumeForm`): skills added from a
    text box and removed by position, experience and education entries
    appended, edited by id and field, and removed by id, and the
    one-achievement-per-line text area. Every operation hands a whole new
    record to the owner through `updateData`. Entry ids come from the clock
    in the source; here they are parameters. */
module ResumeForm {
  import opened Wrappers
  import opened JsStrings
  import opened Seqs
  import opened ResumeTypes

  /** What a press of the add-skill button produces: the record handed to
      the owner, if any, and the new contents of the skill text box. */
  datatype AddSkillStep = AddSkillStep(emitted: Option<ResumeData>, input: string)

  /** `addSkill`: a non-blank input is trimmed and appended, and the box is
      cleared; a blank input does nothing at all. */
  function AddSkill(d: ResumeData, input: string): (r: AddSkillStep)
    ensures r.emitted.Some? <==> !AllSpace(input)
    ensures r.emitted.Some? ==> r.input == ""
    ensures r.emitted.Some? ==> r.emitted.value.skills == d.skills + [Trim(input)]
    ensures r.emitted.Some? ==>
      forall s :: s != SkillsSection ==> GetSection(r.emitted.value, s) == GetSection(d, s)
    ensures r.emitted.Some? ==> Trim(input) != "" && Trimmed(Trim(input))
    ensures r.emitted.None? ==> r.input == input
  {
    TrimEmptyIffBlank(input);
    var t := Trim(input);
    if t != "" then AddSkillStep(Some(UpdateData(d, SkillsValue(d.skills + [t]))), "")
    else AddSkillStep(None, input)
  }

  /** `removeSkill(i)`: drops exactly position `i`, keeping the order of the
      rest; an index outside the list leaves the skills as they are. The
      owner is notified in both cases. */
  function RemoveSkill(d: ResumeData, i: int): (r: ResumeData)
    ensures 0 <= i < |d.skills| ==> r.skills == d.skills[..i] + d.skills[i + 1..]
    ensures 0 <= i < |d.skills| ==> multiset(r.skills) == multiset(d.skills) - multiset{d.skills[i]}
    ensures !(0 <= i < |d.skills|) ==> r == d
    ensures forall s :: s != SkillsSection ==> GetSection(r, s) == GetSection(d, s)
  {
    if 0 <= i < |d.skills| then
      assert d.skills == d.skills[..i] + [d.skills[i]] + d.skills[i + 1..];
      UpdateData(d, SkillsValue(RemoveAt(d.skills, i)))
    else
      UpdateDataLaws(d, SkillsValue(d.skills), SkillsValue(d.skills));
      UpdateData(d, SkillsValue(RemoveAt(d.skills, i)))
  }

  /** Removing the skill just added restores the record. */
  lemma AddThenRemoveSkill(d: ResumeData, input: string)
    requires !AllSpace(input)
    ensures RemoveSkill(AddSkill(d, input).emitted.value, |d.skills|) == d
  {
    var added := AddSkill(d, input).emitted.value;
    var back := RemoveSkill(added, |d.skills|);
    assert back.skills == d.skills;
    forall s ensures GetSection(back, s) == GetSection(d, s) {
    }
    ResumeExt(back, d);
  }

  // ---------------------------------------------------------------------------
  // Experience

  /** The filter `removeExperience` applies. */
  function ExperienceIdIsNot(id: string): Experience -> bool
  {
    (e: Experience) => e.id != id
  }

  /** The entry `addExperience` appends. */
  function BlankExperience(id: string): Experience
  {
    Experience(id, "", "", "", "", "", false, [""])
  }

  /** `addExperience`: appends one blank, not-current entry with a single
      empty achievement, leaving the existing entries and sections as they
      are. */
  function AddExperience(d: ResumeData, id: string): (r: ResumeData)
    ensures |r.experience| == |d.experience| + 1
    ensures r.experience[..|d.experience|] == d.experience
    ensures var e := r.experience[|d.experience|];
      e.id == id && !e.current && e.achievements == [""]
      && e.title == e.company == e.location == e.startDate == e.endDate == ""
    ensures forall s :: s != ExperienceSection ==> GetSection(r, s) == GetSection(d, s)
  {
    UpdateData(d, ExperienceValue(d.experience + [BlankExperience(id)]))
  }

  /** `updateExperience(id, field, value)`: every entry with the given id has
      that one field set, and nothing else changes; length and order are
      kept. */
  function UpdateExperience(d: ResumeData, id: string, f: ExperienceField, v: FieldValue): (r: ResumeData)
    requires ExperienceFits(f, v)
    ensures |r.experience| == |d.experience|
    ensures forall i :: 0 <= i < |d.experience| && d.experience[i].id == id ==>
      r.experience[i] == ExperienceSet(d.experience[i], f, v)
    ensures forall i :: 0 <= i < |d.experience| && d.experience[i].id != id ==>
      r.experience[i] == d.experience[i]
    ensures forall s :: s != ExperienceSection ==> GetSection(r, s) == GetSection(d, s)
  {
    UpdateData(d, ExperienceValue(
      MapWhere(d.experience, (e: Experience) => e.id == id, (e: Experience) => ExperienceSet(e, f, v))))
  }

  /** After an update, every entry with the id holds the new value in that
      field, and every other field of every entry is as before. */
  lemma UpdateExperienceEffect(d: ResumeData, id: string, f: ExperienceField, v: FieldValue)
    requires ExperienceFits(f, v)
    ensures var r := UpdateExperience(d, id, f, v);
      forall i :: 0 <= i < |r.experience| ==>
        r.experience[i].id == d.experience[i].id
        && (r.experience[i].id == id ==> ExperienceGet(r.experience[i], f) == v)
        && forall g :: g != f ==> ExperienceGet(r.experience[i], g) == ExperienceGet(d.experience[i], g)
  {
  }

  /** `removeExperience(id)`: drops every entry with the id, keeps the
      others in order, never grows the list. */
  function RemoveExperience(d: ResumeData, id: string): (r: ResumeData)
    ensures r.experience == Keep(d.experience, ExperienceIdIsNot(id))
    ensures |r.experience| <= |d.experience|
    ensures forall e :: e in r.experience ==> e in d.experience && e.id != id
    ensures forall e :: e in d.experience && e.id != id ==> e in r.experience
    ensures forall s :: s != ExperienceSection ==> GetSection(r, s) == GetSection(d, s)
  {
    UpdateData(d, ExperienceValue(Keep(d.experience, ExperienceIdIsNot(id))))
  }

  /** Removing a freshly added entry whose id no existing entry uses
      restores the record. */
  lemma AddThenRemoveExperience(d: ResumeData, id: string)
    requires forall i :: 0 <= i < |d.experience| ==> d.experience[i].id != id
    ensures RemoveExperience(AddExperience(d, id), id) == d
  {
    var p := ExperienceIdIsNot(id);
    var added := ExperienceValue(d.experience + [BlankExperience(id)]);
    assert AddExperience(d, id) == UpdateData(d, added);
    KeepDropsLast(d.experience, BlankExperience(id), p);
    UpdateDataLaws(d, added, ExperienceValue(d.experience));
  }

  // ---------------------------------------------------------------------------
  // Education

  /** The filter `removeEducation` applies. */
  function EducationIdIsNot(id: string): Education -> bool
  {
    (e: Education) => e.id != id
  }

  /** The entry `addEducation` appends: every string empty, `gpa` included. */
  function BlankEducation(id: string): Education
  {
    Education(id, "", "", "", "", Some(""))
  }

  /** `addEducation`: appends one entry with all strings empty, a present
      but empty `gpa` included. */
  function AddEducation(d: ResumeData, id: string): (r: ResumeData)
    ensures |r.education| == |d.education| + 1
    ensures r.education[..|d.education|] == d.education
    ensures var e := r.education[|d.education|];
      e.id == id && e.gpa == Some("")
      && e.degree == e.institution == e.startDate == e.endDate == ""
    ensures forall s :: s != EducationSection ==> GetSection(r, s) == GetSection(d, s)
  {
    UpdateData(d, EducationValue(d.education + [BlankEducation(id)]))
  }

  /** `updateEducation(id, field, value)`: as for experience. */
  function UpdateEducation(d: ResumeData, id: string, f: EducationField, v: FieldValue): (r: ResumeData)
    requires EducationFits(f, v)
    ensures |r.education| == |d.education|
    ensures forall i :: 0 <= i < |d.education| && d.education[i].id == id ==>
      r.education[i] == EducationSet(d.education[i], f, v)
    ensures forall i :: 0 <= i < |d.education| && d.education[i].id != id ==>
      r.education[i] == d.education[i]
    ensures forall s :: s != EducationSection ==> GetSection(r, s) == GetSection(d, s)
  {
    UpdateData(d, EducationValue(
      MapWhere(d.education, (e: Education) => e.id == id, (e: Education) => EducationSet(e, f, v))))
  }

  /** `removeEducation(id)`: as for experience. */
  function RemoveEducation(d: ResumeData, id: string): (r: ResumeData)
    ensures r.education == Keep(d.education, EducationIdIsNot(id))
    ensures |r.education| <= |d.education|
    ensures forall e :: e in r.education ==> e in d.education && e.id != id
    ensures forall e :: e in d.education && e.id != id ==> e in r.education
    ensures forall s :: s != EducationSection ==> GetSection(r, s) == GetSection(d, s)
  {
    UpdateData(d, EducationValue(Keep(d.education, EducationIdIsNot(id))))
  }

  /** Removing a freshly added education entry with an unused id restores
      the record. */
  lemma AddThenRemoveEducation(d: ResumeData, id: string)
    requires forall i :: 0 <= i < |d.education| ==> d.education[i].id != id
    ensures RemoveEducation(AddEducation(d, id), id) == d
  {
    var p := EducationIdIsNot(id);
    var added := EducationValue(d.education + [BlankEducation(id)]);
    assert AddEducation(d, id) == UpdateData(d, added);
    KeepDropsLast(d.education, BlankEducation(id), p);
    UpdateDataLaws(d, added, EducationValue(d.education));
  }

  // ---------------------------------------------------------------------------
  // The achievements text area

  /** What the text area shows: one achievement per line. */
  function AchievementsText(xs: seq<string>): string
  {
    Join(xs, "\n")
  }

  /** What typing into the text area stores: the text split at line breaks. */
  function ParseAchievements(text: string): (r: seq<string>)
    ensures |r| >= 1
  {
    Split(text, "\n")
  }

  /** Whatever the user types, the text area shows it back unchanged after
      the round trip through the record. */
  lemma TypedTextIsStable(text: string)
    ensures AchievementsText(ParseAchievements(text)) == text
  {
    JoinSplit(text, "\n");
  }

  /** A non-empty list of single-line achievements survives being shown in
      the text area and read back. */
  lemma AchievementsRoundTrip(xs: seq<string>)
    requires |xs| > 0
    requires forall k :: 0 <= k < |xs| ==> '\n' !in xs[k]
    ensures ParseAchievements(AchievementsText(xs)) == xs
  {
    SplitJoin(xs, '\n');
  }

  /** The text-area edit stores the parsed lines in the entries with the
      id and changes nothing else. */
  function EditAchievementsText(d: ResumeData, id: string, text: string): (r: ResumeData)
    ensures |r.experience| == |d.experience|
    ensures forall i :: 0 <= i < |d.experience| && d.experience[i].id == id ==>
      r.experience[i] == d.experience[i].(achievements := ParseAchievements(text))
    ensures forall i :: 0 <= i < |d.experience| && d.experience[i].id != id ==>
      r.experience[i] == d.experience[i]
    ensures forall s :: s != ExperienceSection ==> GetSection(r, s) == GetSection(d, s)
  {
    UpdateExperience(d, id, ExpAchievements, Lines(ParseAchievements(text)))
  }
}
