# Résumé builder, story reader and navigation bar, modelled in Dafny

This project models the logic of a personal portfolio site written in
TypeScript and React. The parts modelled are:

- **The résumé record** (`ResumeTypes`). It covers the record's sections, a getter and setter per named field, and `updateData`.
- **The form editor** (`ResumeForm`). It adds and removes skills, adds, edits and removes experience and education entries by id, and handles the one-achievement-per-line text area.
- **The click-to-edit field** (`EditableText`). It is a two-state machine (Display or Editing) with a draft. It reacts to click, typing, Enter, Escape and blur.
- **The click-to-edit résumé page**. This spans three modules:
  - `ResumeView`: which field shows what, what a commit into each field does, the grade label and the download-name guard;
  - `SkillBands`: the positional skills bands;
  - `ProjectBullets`: the project bullet split and re-join.
- **The read-only preview** (`ResumePreview`). It covers the file name, the header fallback, achievement filtering and bullet stripping, date lines and which sections appear.
- **The story reader** (`BookReader`). It covers the cover plus pages, clamped next and previous, the indicator and paragraph splitting.
- **The navigation bar's scroll spy** (`ScrollSpy`).

The JavaScript string operations the code relies on are defined once in
`JsStrings`, with ECMAScript semantics:

- `split` keeps empty fragments, and `""` splits to `[""]`.
- `trim` strips the ECMAScript whitespace and line-terminator set.
- `replace` with a string pattern replaces only the first occurrence.
- The `/\.\s*$/` replacement is modelled.
- `Number#toString` is modelled for naturals.

Array helpers (`map`, `filter` and the conditional per-id `map`) are in
`Seqs`, and `Option` is in `Wrappers`.

Inputs the source takes from the environment are parameters:

- entry ids, which the source takes from the clock;
- the month and year text of a date (the `Locale` and `fmt` parameters);
- the measured section boxes and the scroll offset.

On the bullet edit, the model follows the code. One might expect a description ending in a single period after a bullet edit. For an ordinary edit it does not get one. An ordinary edit commits a non-blank text with a single, final period, as the bullet shows it:

- The first period is removed, so the edited sentence has text and no period. The sentences are re-joined with ". ", so the join ends in the last sentence, which is not a period.
- The `/\.\s*$/` replacement fires only when the joined text already ends in a period followed by whitespace, so it does not fire here.

So an ordinary bullet commit leaves the description without a final period (`ProjectBullets.CommittedEndsWithoutPeriod`). The bullets shown are unaffected (`ProjectBullets.BulletEdit`). Other committed texts can end the description in a period:

- On the last bullet, a text that still ends in a period once its first period is removed keeps that period at the end. For example, committing "x.y." on the second bullet of "A.B" gives "A. xy.".
- A bare "." on the last bullet becomes an empty sentence. The join then ends in ". ", and the replacement cuts it to a final period.

`CommitBullet` models these cases, but no property is proved about them.

## Model

| member | source | states |
|---|---|---|
| ResumeTypes.ContactSet | src/components/resume/EditableResumeView.tsx:138-140 | `{ ...contact, [field]: value }` sets the named contact field and keeps the other four |
| ResumeTypes.ContactExt | src/types/resume.ts:2-8 | the five named fields are the whole contact record |
| ResumeTypes.ExperienceSet | src/components/resume/ResumeForm.tsx:49-53 | `{ ...exp, [field]: value }` sets one field to a value of the declared type, keeps the id and every other field |
| ResumeTypes.ExperienceExt | src/types/resume.ts:10-19 | an experience entry is its id and its seven fields |
| ResumeTypes.EducationSet | src/components/resume/ResumeForm.tsx:71-75 | `{ ...edu, [field]: value }` sets one field (the optional grade may be cleared), keeps the id and the others |
| ResumeTypes.EducationExt | src/types/resume.ts:21-28 | an education entry is its id and its five fields |
| ResumeTypes.ProjectSet | src/components/resume/EditableResumeView.tsx:504-506 | `{ ...p, [field]: value }` for a project: one field set, id and other fields kept |
| ResumeTypes.UpdateData | src/components/resume/ResumeForm.tsx:20-22 | `updateData` replaces exactly the named top-level section and keeps the other six |
| ResumeTypes.ResumeExt | src/types/resume.ts:46-54 | the seven sections are the whole record |
| ResumeTypes.UpdateDataLaws | src/components/resume/ResumeForm.tsx:20-22 | writing a section's own value back is the identity; of two writes to one section only the second counts |
| ResumeForm.AddSkill | src/components/resume/ResumeForm.tsx:24-29 | the owner is called iff the input is not blank; then the trimmed input is appended and the box cleared, otherwise the box is left as typed |
| ResumeForm.RemoveSkill | src/components/resume/ResumeForm.tsx:31-33 | removes exactly position i (the multiset loses one copy of that skill) keeping the order of the rest; an index outside the list changes nothing |
| ResumeForm.AddThenRemoveSkill | src/components/resume/ResumeForm.tsx:24-33 | removing the skill just added restores the record |
| ResumeForm.AddExperience | src/components/resume/ResumeForm.tsx:35-47 | appends one blank, not-current entry with the given id and a single empty achievement; existing entries and other sections kept |
| ResumeForm.UpdateExperience | src/components/resume/ResumeForm.tsx:49-53 | length and order kept; entries with the id get the field set, all others are unchanged |
| ResumeForm.RemoveExperience | src/components/resume/ResumeForm.tsx:55-57 | every entry with the id is dropped, every other entry survives, order kept, never longer |
| ResumeForm.AddThenRemoveExperience | src/components/resume/ResumeForm.tsx:35-57 | adding an entry under a fresh id and removing that id restores the record |
| ResumeForm.AddEducation | src/components/resume/ResumeForm.tsx:59-69 | appends one entry whose strings, the grade included, are all empty |
| ResumeForm.UpdateEducation | src/components/resume/ResumeForm.tsx:71-75 | as for experience: only the entries with the id change, only in that field |
| ResumeForm.RemoveEducation | src/components/resume/ResumeForm.tsx:77-79 | every entry with the id is dropped, the rest kept in order |
| ResumeForm.AddThenRemoveEducation | src/components/resume/ResumeForm.tsx:59-79 | add under a fresh id then remove restores the record |
| ResumeForm.ParseAchievements | src/components/resume/ResumeForm.tsx:261 | the text area's lines; never an empty list |
| ResumeForm.TypedTextIsStable | src/components/resume/ResumeForm.tsx:260-261 | the text area shows back exactly what was typed into it |
| ResumeForm.AchievementsRoundTrip | src/components/resume/ResumeForm.tsx:260-261 | a non-empty achievement list without newlines survives join-then-split unchanged |
| ResumeForm.EditAchievementsText | src/components/resume/ResumeForm.tsx:261 | the parsed lines go to the entries with the id, nothing else changes |
| EditableText.Mount | src/components/resume/EditableResumeView.tsx:29-30 | a field starts displaying, with the draft initialised from the value |
| EditableText.Shown | src/components/resume/EditableResumeView.tsx:86 | the span shows the value, or the placeholder when the value is empty |
| EditableText.Handle | src/components/resume/EditableResumeView.tsx:39-82 | a commit emits the draft and returns to Display; blur always commits; Enter commits iff single-line; Escape restores the value and emits nothing; typing sets the draft; only a click acts while displaying |
| EditableText.NoCommitWithoutBlurOrEnter | src/components/resume/EditableResumeView.tsx:39-52 | with no blur and no Enter on a single-line field, `onChange` is never called; a multi-line field never commits on Enter |
| EditableText.EmittedWereTyped | src/components/resume/EditableResumeView.tsx:39-71 | every committed string is the initial draft, the value, or a text that was typed |
| EditableText.EscapeDiscards | src/components/resume/EditableResumeView.tsx:48-51 | uncommitted editing followed by Escape ends displaying, draft equal to the value, nothing emitted |
| EditableText.TypeThenCommit | src/components/resume/EditableResumeView.tsx:39-46 | click, type t, blur (or Enter when single-line) emits exactly [t] and ends displaying t |
| EditableText.ClickKeepsDraft | src/components/resume/EditableResumeView.tsx:29-82 | clicking back into a field does not reset the draft to the value |
| SkillBands.Slice | src/components/resume/EditableResumeView.tsx:336 | `slice` with bounds clamped to the length |
| SkillBands.Pieces | src/components/resume/EditableResumeView.tsx:339 | split at commas and trimmed: at least one piece, each trimmed and comma-free |
| SkillBands.PiecesOfJoined | src/components/resume/EditableResumeView.tsx:336-339 | trimmed comma-free items joined with ", " split back into exactly those items |
| SkillBands.SetOrAppend | src/components/resume/EditableResumeView.tsx:341 | assigning at the length of an array appends |
| SkillBands.WriteBand | src/components/resume/EditableResumeView.tsx:340-342 | the first `width` pieces overwrite consecutive positions from `lo`, later pieces are ignored, every other position keeps its skill |
| SkillBands.CommitLanguages | src/components/resume/EditableResumeView.tsx:337-344 | positions below 6 take the pieces in order, pieces past the sixth ignored, positions with no piece and positions 6 onwards kept |
| SkillBands.CommitFrameworks | src/components/resume/EditableResumeView.tsx:359-366 | positions 6..9 take up to four pieces in order; positions below 6 and past the written ones kept |
| SkillBands.CommitDatabases | src/components/resume/EditableResumeView.tsx:381-385 | the first ten skills (or all, if fewer) followed by the pieces |
| SkillBands.BandRoundTrip | src/components/resume/EditableResumeView.tsx:336-385 | committing a non-empty clean band's shown text is the identity |
| SkillBands.EmptyBandCommitAddsBlank | src/components/resume/EditableResumeView.tsx:336-385 | committing an empty Languages or Databases band's text appends one empty skill |
| ProjectBullets.Sentences | src/components/resume/EditableResumeView.tsx:532 | the fragments between periods that have text; none holds a period |
| ProjectBullets.Bullet | src/components/resume/EditableResumeView.tsx:535 | a bullet is the trimmed sentence followed by one period |
| ProjectBullets.Bullets | src/components/resume/EditableResumeView.tsx:532-535 | one bullet per sentence, in order |
| ProjectBullets.ReplaceOnlyPeriod | src/components/resume/EditableResumeView.tsx:538 | removing the first period of a text whose only period is final gives the text before it |
| ProjectBullets.CommitPlain | src/components/resume/EditableResumeView.tsx:537-539 | a commit of one sentence plus period is the plain ". " join of the sentences, and the final-period replacement does not fire |
| ProjectBullets.BulletEdit | src/components/resume/EditableResumeView.tsx:532-539 | after such a commit the bullets are the old ones with bullet i replaced, same number, all others unchanged |
| ProjectBullets.BulletCommitUnchanged | src/components/resume/EditableResumeView.tsx:532-539 | committing a bullet's own text leaves every bullet as it was |
| ProjectBullets.CommittedEndsWithoutPeriod | src/components/resume/EditableResumeView.tsx:539 | after such a commit the description's last character is not a period |
| ResumeView.UpdateContact | src/components/resume/EditableResumeView.tsx:138-140 | one contact field takes the value; the other contact fields and all other sections kept |
| ResumeView.UpdateProject | src/components/resume/EditableResumeView.tsx:504-507 | projects with the id get the field set, the others unchanged, length kept |
| ResumeView.EditAchievement | src/components/resume/EditableResumeView.tsx:467-473 | in each entry with the id, achievement k takes the value, others kept |
| ResumeView.FormatDate | src/components/resume/EditableResumeView.tsx:142-148 | a date shows as empty exactly when the date string is empty |
| ResumeView.DateRangeFacts | src/components/resume/EditableResumeView.tsx:150-154 | the range starts with the start date and " -- "; a current role ends in "Present" whatever its end date |
| ResumeView.GpaLabel | src/components/resume/EditableResumeView.tsx:288 | "Percentage: " when the grade holds '%', "CGPA: " otherwise |
| ResumeView.NoPercentageAfterCgpa | src/components/resume/EditableResumeView.tsx:288-290 | "Percentage: " cannot start inside a "CGPA: " prefix |
| ResumeView.GpaRoundTrip | src/components/resume/EditableResumeView.tsx:288-290 | committing the label unchanged stores the original grade, when the grade holds neither label word |
| ResumeView.Commit | src/components/resume/EditableResumeView.tsx:202-547 | date-range and band-label fields never call the owner, every other field does |
| ResumeView.CommitWritesOwnSection | src/components/resume/EditableResumeView.tsx:134-140 | a commit changes only the section its field belongs to |
| ResumeView.CommitKeepsEntries | src/components/resume/EditableResumeView.tsx:257-552 | no commit adds, removes, moves or re-keys an entry |
| ResumeView.CommitThenDisplay | src/components/resume/EditableResumeView.tsx:202-511 | a plain text field shows exactly the text just committed into it |
| ResumeView.CommitDisplayedIsIdentity | src/components/resume/EditableResumeView.tsx:202-511 | committing a plain text field's shown text unchanged gives back the same record (ids unique) |
| ResumeView.GpaCommitDisplayed | src/components/resume/EditableResumeView.tsx:286-300 | when education ids are unique and the grade contains neither label word ("Percentage: ", "CGPA: "), committing the grade label unchanged gives back the same record |
| ResumeView.TechnologiesCommitDisplayed | src/components/resume/EditableResumeView.tsx:516-524 | when project ids are unique and the technologies are a non-empty list of trimmed, comma-free names, committing their shown text gives back the same record |
| ResumeView.BandCommitDisplayed | src/components/resume/EditableResumeView.tsx:335-389 | committing a clean non-empty band's shown text gives back the same record |
| ResumeView.BulletCommitEffect | src/components/resume/EditableResumeView.tsx:532-544 | committing a non-blank, period-free text followed by one period replaces that bullet of the project and keeps the others |
| ResumeView.DefaultFileName | src/components/resume/EditableResumeView.tsx:98 | the dialog opens with the full name, or "resume" |
| ResumeView.ProceedDownload | src/components/resume/EditableResumeView.tsx:107-114 | a blank name aborts; otherwise the file is the trimmed name with ".pdf" |
| ResumeView.DefaultDownload | src/components/resume/EditableResumeView.tsx:98-114 | the default name downloads "<name>.pdf", or "resume.pdf" without a name |
| ResumePreview.ExportFileName | src/components/resume/ResumePreview.tsx:22 | full name with ".pdf", or "resume.pdf" |
| ResumePreview.ExportNamesAgree | src/components/resume/ResumePreview.tsx:22 | the preview's file name equals the editable page's default download for a trimmed name |
| ResumePreview.ExportNamesDifferWhenPadded | src/components/resume/ResumePreview.tsx:22 | for a name with whitespace at either end, the preview's file name keeps the whitespace, while the editable page downloads the trimmed name (or nothing, for an all-whitespace name); the two never agree |
| ResumePreview.HeaderName | src/components/resume/ResumePreview.tsx:46 | the full name, or "Your Name"; never empty |
| ResumePreview.LineIf | src/components/resume/ResumePreview.tsx:48-56 | a contact line exists only for a non-empty field |
| ResumePreview.ContactLinesFacts | src/components/resume/ResumePreview.tsx:48-56 | one line per non-empty contact field, LinkedIn and GitHub labelled |
| ResumePreview.PreviewDate | src/components/resume/ResumePreview.tsx:35-39 | the empty date shows as nothing |
| ResumePreview.ExperienceDatesFacts | src/components/resume/ResumePreview.tsx:89 | a current role's line ends in "Present" whatever its end date |
| ResumePreview.ShowAchievement | src/components/resume/ResumePreview.tsx:95 | a leading '•' is dropped and the rest trimmed; anything else verbatim |
| ResumePreview.ShownAchievements | src/components/resume/ResumePreview.tsx:93-95 | the listed achievements are the non-blank ones, in order, each shown as above |
| ResumePreview.ShownAppend | src/components/resume/ResumePreview.tsx:93 | listing keeps relative order across concatenation |
| ResumePreview.ShownSingle | src/components/resume/ResumePreview.tsx:93-95 | a blank achievement is never listed; a plain one is listed as written |
| ResumePreview.BareBulletListedEmpty | src/components/resume/ResumePreview.tsx:93-95 | an achievement that is only '•' is listed, as an empty item |
| ResumePreview.GpaLine | src/components/resume/ResumePreview.tsx:117 | the grade line appears iff the grade is non-empty, exactly when the editable page shows its grade field |
| ResumePreview.TechnologiesLine | src/components/resume/ResumePreview.tsx:133-135 | the line appears iff there are technologies |
| ResumePreview.LinkLine | src/components/resume/ResumePreview.tsx:136-138 | the line appears iff the link is non-empty |
| ResumePreview.VisibleSections | src/components/resume/ResumePreview.tsx:62-145 | a section is shown iff it has content, in page order |
| ResumePreview.EmptyPreview | src/components/resume/ResumePreview.tsx:46-145 | an empty record shows no section, "Your Name" and exports "resume.pdf" |
| ResumePreview.FirstSkillShowsSection | src/components/resume/ResumePreview.tsx:70-73 | adding the first skill makes the skills section appear showing that skill |
| BookReader.AllPages | src/components/BookModal.tsx:26-29 | the cover followed by the pages: one more entry than pages |
| BookReader.NextPage | src/components/BookModal.tsx:31-35 | one page on before the last page, no-op on it |
| BookReader.PrevPage | src/components/BookModal.tsx:37-41 | one page back after the cover, no-op on it |
| BookReader.DisabledIffNoOp | src/components/BookModal.tsx:140-162 | a button is disabled exactly where pressing it does nothing |
| BookReader.Step | src/components/BookModal.tsx:123-127 | close only notifies the owner; the arrows do not |
| BookReader.RunStaysInRange | src/components/BookModal.tsx:24-41 | no click sequence leaves `allPages` |
| BookReader.NextsFromCover | src/components/BookModal.tsx:31-35 | k presses of next from page p reach min(p + k, number of pages) |
| BookReader.ClosesKeepPage | src/components/BookModal.tsx:123-131 | closing leaves the page index unchanged |
| BookReader.NextThenPrev | src/components/BookModal.tsx:31-41 | next then previous returns, except from the last page |
| BookReader.Shown | src/components/BookModal.tsx:120-135 | the page rendered at an index is that entry of `allPages`, the cover at 0 |
| BookReader.IndicatorFacts | src/components/BookModal.tsx:151 | "Page i of n" with n the number of pages after the cover, both numbers read back |
| BookReader.Paragraphs | src/components/BookModal.tsx:95 | no paragraphs without text, at least one otherwise |
| BookReader.ParagraphsRejoin | src/components/BookModal.tsx:95 | the paragraphs joined with a blank line give back the text exactly |
| ScrollSpy.ActiveAfter | src/components/Navbar.tsx:14-22 | with no section holding the point the active id is kept |
| ScrollSpy.ActiveIsLastHolder | src/components/Navbar.tsx:14-22 | with some section holding the point, the last one in document order wins |
| ScrollSpy.ActiveSection | src/components/Navbar.tsx:10-22 | the front-to-back loop computes that: last holder's id, or the previous id |
| ScrollSpy.OnScroll | src/components/Navbar.tsx:10-25 | the bar is opaque iff the offset exceeds 50 |
| ScrollSpy.OnScrollFacts | src/components/Navbar.tsx:12-24 | the opaque flag ignores the previous state; so does the active id once a section holds the point |
| ScrollSpy.ScrollTarget | src/components/Navbar.tsx:31-39 | the first section with the id is the target, 80 above its top; no section, no scroll |
| ScrollSpy.ScrollThenSpy | src/components/Navbar.tsx:12-39 | when the page can scroll that far (target within 0 to the maximum scroll), scrolling to a tall enough section makes it the active one |
| JsStrings.Trim | src/components/resume/ResumeForm.tsx:25-26 | `trim` never lengthens and leaves no whitespace at either end |
| JsStrings.TrimEmptyIffBlank | src/components/resume/ResumeForm.tsx:25 | the trim is empty iff the text is all whitespace |
| JsStrings.TrimIdempotent | src/components/resume/ResumeForm.tsx:25-26 | trimming twice is trimming once |
| JsStrings.IndexOf | src/components/resume/EditableResumeView.tsx:288 | the leftmost occurrence, if any |
| JsStrings.ReplaceFirst | src/components/resume/EditableResumeView.tsx:290 | without an occurrence nothing changes; otherwise the leftmost occurrence is replaced by the replacement text and everything before and after it is kept |
| JsStrings.ReplacePrefix | src/components/resume/EditableResumeView.tsx:290 | removing a leading pattern gives back the rest |
| JsStrings.Split | src/components/resume/ResumeForm.tsx:261 | a split always has at least one fragment |
| JsStrings.JoinSplit | src/components/resume/ResumeForm.tsx:260-261 | joining a split with its separator gives back the text |
| JsStrings.SplitJoin | src/components/resume/ResumeForm.tsx:260-261 | splitting a join of separator-free parts gives back the parts |
| JsStrings.SplitSpacedJoin | src/components/resume/EditableResumeView.tsx:537-539 | splitting a ". "-style join: first part as is, later parts behind one space |
| JsStrings.DropSpaceAfterFinalPeriod | src/components/resume/EditableResumeView.tsx:539 | with a final period followed only by whitespace the text is cut after the period; otherwise unchanged |
| JsStrings.NatToString | src/components/BookModal.tsx:151 | decimal digits, at least one |
| JsStrings.ParseNatToString | src/components/BookModal.tsx:151 | the printed number reads back as itself |
| Seqs.MapWhere | src/components/resume/ResumeForm.tsx:50-52 | the conditional `map`: matching elements mapped, others kept, length kept |
| Seqs.Keep | src/components/resume/ResumeForm.tsx:56 | `filter`: exactly the passing elements survive, never longer |
| Seqs.KeepAppend | src/components/resume/ResumeForm.tsx:56 | filtering keeps relative order across concatenation |
| Seqs.RemoveAt | src/components/resume/ResumeForm.tsx:32 | filtering out position i drops exactly it; an outside index changes nothing |
| Seqs.SetAt | src/components/resume/EditableResumeView.tsx:470 | position i takes the value, the others kept; an outside index changes nothing |

## Left out

- PDF export. The html2pdf import and its `.save()`, the `downloadResume` window event and the preview element reference are a foreign library and browser events. Only the file-name guard is modelled (`ResumeView.ProceedDownload`, `ResumePreview.ExportFileName`).
- Month and year formatting. It uses `Date` parsing and locale formatting, which depend on the browser. These are the uninterpreted `Locale` and `fmt` parameters.
- The date-range fields' save handlers only write to the console (`console.log`). The log is not modelled, and `ResumeView.Commit` returns `None` for those fields.
- Id generation. It reads the clock, so ids are parameters. Removal is stated over all entries with the id, because ids may collide.
- Focus management, styling, placeholder colours and React rendering order.
- The contact form, static content pages and data files. They hold no logic.
- SkillBands.CommitFrameworks: requires at least six skills. On a shorter list the source's positional write leaves holes in the JavaScript array, and holes are not modelled. `ResumeView.Commit` carries the same condition for the Frameworks field.
- ProjectBullets.BulletEdit: proved for a committed text that is non-blank with a single, final period. Other texts are modelled by `CommitBullet` and have no proved property. A blank text deletes the bullet, and a text with extra periods makes extra sentences.
- ResumeView.CommitDisplayedIsIdentity: assumes unique entry ids. With duplicate ids the source writes the rendered entry's value into every entry sharing the id. `Commit` models that, but no identity holds.
- EditableText.Handle: models one field with a fixed `value` prop. The draft is not re-synchronised when the owner changes the value, just as in the source.
- Characters are Unicode scalar values, not UTF-16 code units. `substring(1)` after a leading '•' is the same either way, because '•' is a single code unit.
- BookReader: page images, their placement and the per-page number are presentation. `isOpen` only shows or hides the dialog and is not modelled.
- ScrollSpy: section boxes and the scroll offset are inputs. The DOM query, the `scroll` listener and `window.scrollTo` are not modelled.
- ScrollSpy.ScrollThenSpy: the browser clamps `window.scrollTo` to the range from 0 to the page height less the viewport; the model states the property only for targets inside that range (the `maxScroll` precondition) and does not model the clamped scroll, after which a short last section near the page bottom may leave an earlier section active.
- ScrollSpy.OnScroll: scroll offsets are whole pixels here, while `window.scrollY` may be fractional; an offset strictly between 50 and 51, which makes the bar opaque, is not representable. Section boxes are whole pixels, so for any fractional offset the active section is the one the model gives for the offset rounded down.
