/** The click-to-edit field of the résumé view (`EditableText`): a span that
    shows the value (or a placeholder), and on click becomes an input or a
    text area over a local draft. Blur commits, Enter commits only in
    single-line mode, Escape puts the draft back to the current value and
    leaves editing without committing. A commit calls the owner's `onChange`
    with the draft; the field keeps no other state. */
module EditableText {
  import opened Wrappers

  datatype Mode = Display | Editing

  /** `isEditing` and `editValue`. */
  datatype FieldState = FieldState(mode: Mode, draft: string)

  /** Click on the span, a change of the input's text, the Enter and Escape
      keys, and loss of focus. */
  datatype Event = Click | Type(text: string) | Enter | Escape | Blur

  /** One transition: the next state and the string passed to `onChange`,
      if it was called. */
  datatype Step = Step(state: FieldState, emitted: Option<string>)

  /** A freshly mounted field: not editing, the draft initialised from the
      value it was mounted with. */
  function Mount(value: string): (s: FieldState)
    ensures s.mode == Display && s.draft == value
  {
    FieldState(Display, value)
  }

  /** What the span shows when not editing: the value, or the placeholder
      when the value is empty. */
  function Shown(value: string, placeholder: string): (r: string)
    ensures value != "" ==> r == value
    ensures value == "" ==> r == placeholder
  {
    if value != "" then value else placeholder
  }

  /** A commit: `onChange(editValue)` then `setIsEditing(false)`. */
  function Save(s: FieldState): Step
  {
    Step(FieldState(Display, s.draft), Some(s.draft))
  }

  /** One event. `value` is the field's current `value` prop, which Escape
      restores into the draft. While displaying, only a click does
      anything; the input that would receive the other events is not
      rendered. */
  function Handle(s: FieldState, value: string, multiline: bool, e: Event): (r: Step)
    ensures r.emitted.Some? ==> s.mode == Editing && r.emitted.value == s.draft
    ensures r.emitted.Some? ==> r.state == FieldState(Display, s.draft)
    ensures s.mode == Editing && e == Blur ==> r.emitted == Some(s.draft)
    ensures s.mode == Editing && e == Enter ==> (r.emitted.Some? <==> !multiline)
    ensures s.mode == Editing && e == Enter && multiline ==> r.state == s
    ensures s.mode == Editing && e == Escape ==> r == Step(FieldState(Display, value), None)
    ensures s.mode == Editing && e.Type? ==> r == Step(FieldState(Editing, e.text), None)
    ensures s.mode == Display && e == Click ==> r == Step(FieldState(Editing, s.draft), None)
    ensures s.mode == Display && e != Click ==> r == Step(s, None)
  {
    match s.mode
    case Display =>
      if e == Click then Step(s.(mode := Editing), None) else Step(s, None)
    case Editing =>
      match e
      case Click => Step(s, None)
      case Type(t) => Step(s.(draft := t), None)
      case Enter => if !multiline then Save(s) else Step(s, None)
      case Escape => Step(FieldState(Display, value), None)
      case Blur => Save(s)
  }

  /** The outcome of a sequence of events with an unchanging `value` prop:
      the final state and every string passed to `onChange`, in order. */
  datatype Outcome = Outcome(state: FieldState, emitted: seq<string>)

  function Run(s: FieldState, value: string, multiline: bool, es: seq<Event>): Outcome
    decreases |es|
  {
    if |es| == 0 then Outcome(s, [])
    else
      var st := Handle(s, value, multiline, es[0]);
      var rest := Run(st.state, value, multiline, es[1..]);
      Outcome(rest.state, (if st.emitted.Some? then [st.emitted.value] else []) + rest.emitted)
  }

  /** Events that can never commit: no blur, and no Enter unless the field
      is multi-line. */
  predicate NeverCommits(multiline: bool, es: seq<Event>) {
    forall i :: 0 <= i < |es| ==> es[i] != Blur && (multiline || es[i] != Enter)
  }

  /** Without a blur, and without Enter on a single-line field, `onChange`
      is never called, whatever else happens. In particular a multi-line
      field never commits on Enter. */
  lemma {:induction false} NoCommitWithoutBlurOrEnter(s: FieldState, value: string, multiline: bool, es: seq<Event>)
    requires NeverCommits(multiline, es)
    ensures Run(s, value, multiline, es).emitted == []
    decreases |es|
  {
    if |es| > 0 {
      assert es[0] != Blur && (multiline || es[0] != Enter);
      NoCommitWithoutBlurOrEnter(Handle(s, value, multiline, es[0]).state, value, multiline, es[1..]);
    }
  }

  /** Everything passed to `onChange` is text the user typed, or the draft
      the field held to begin with: the field never invents a value. */
  lemma {:induction false} EmittedWereTyped(s: FieldState, value: string, multiline: bool, es: seq<Event>)
    ensures forall t :: t in Run(s, value, multiline, es).emitted ==>
      t == s.draft || t == value || exists i :: 0 <= i < |es| && es[i] == Type(t)
    decreases |es|
  {
    if |es| > 0 {
      var st := Handle(s, value, multiline, es[0]);
      EmittedWereTyped(st.state, value, multiline, es[1..]);
      forall t | t in Run(st.state, value, multiline, es[1..]).emitted
        ensures t == s.draft || t == value || exists i :: 0 <= i < |es| && es[i] == Type(t)
      {
        if exists i :: 0 <= i < |es[1..]| && es[1..][i] == Type(t) {
          var i :| 0 <= i < |es[1..]| && es[1..][i] == Type(t);
          assert es[i + 1] == Type(t);
        } else if t == st.state.draft && t != s.draft && t != value {
          assert es[0] == Type(t);
        }
      }
    }
  }

  /** Escape after any editing that did not commit discards it: the field
      is back to displaying, the draft equals the value, and `onChange` was
      never called. */
  lemma EscapeDiscards(s: FieldState, value: string, multiline: bool, es: seq<Event>)
    requires s.mode == Editing
    requires NeverCommits(multiline, es)
    ensures Run(s, value, multiline, es + [Escape]).state == FieldState(Display, value)
    ensures Run(s, value, multiline, es + [Escape]).emitted == []
  {
    NoCommitWithoutBlurOrEnter(s, value, multiline, es + [Escape]);
    EscapeLast(s, value, multiline, es);
  }

  lemma {:induction false} EscapeLast(s: FieldState, value: string, multiline: bool, es: seq<Event>)
    requires s.mode == Editing || s.draft == value
    requires NeverCommits(multiline, es)
    ensures Run(s, value, multiline, es + [Escape]).state == FieldState(Display, value)
    decreases |es|
  {
    if |es| == 0 {
      assert es + [Escape] == [Escape];
      assert [Escape][1..] == [];
      assert Run(s, value, multiline, [Escape]).state == Handle(s, value, multiline, Escape).state;
    } else {
      var st := Handle(s, value, multiline, es[0]);
      assert (es + [Escape])[1..] == es[1..] + [Escape];
      assert st.state.mode == Editing || st.state.draft == value;
      EscapeLast(st.state, value, multiline, es[1..]);
    }
  }

  /** Click, type, blur: the typed text is committed and the field is back
      to displaying. On a single-line field Enter does the same. */
  lemma TypeThenCommit(value: string, multiline: bool, t: string, commit: Event)
    requires commit == Blur || (commit == Enter && !multiline)
    ensures Run(Mount(value), value, multiline, [Click, Type(t), commit])
      == Outcome(FieldState(Display, t), [t])
  {
    var s0 := Mount(value);
    var s1 := Handle(s0, value, multiline, Click).state;
    var s2 := Handle(s1, value, multiline, Type(t)).state;
    assert [Click, Type(t), commit][1..] == [Type(t), commit];
    assert [Type(t), commit][1..] == [commit];
    assert [commit][1..] == [];
    assert s2 == FieldState(Editing, t);
    assert Run(s2, value, multiline, [commit]) == Outcome(FieldState(Display, t), [t]);
    assert Run(s1, value, multiline, [Type(t), commit]) == Outcome(FieldState(Display, t), [t]);
  }

  /** Clicking back into a field does not reset the draft to the value:
      after a commit the owner ignored (the value did not change), the next
      edit starts from the old draft, not from the value. */
  lemma ClickKeepsDraft(value: string, t: string)
    requires t != value
    ensures var o := Run(Mount(value), value, false, [Click, Type(t), Blur, Click]);
      o.state == FieldState(Editing, t) && o.state.draft != value
  {
    var es := [Click, Type(t), Blur, Click];
    assert es[1..] == [Type(t), Blur, Click];
    assert es[1..][1..] == [Blur, Click];
    assert es[1..][1..][1..] == [Click];
    assert [Click][1..] == [];
    var s3 := FieldState(Display, t);
    assert Run(s3, value, false, [Click]).state == FieldState(Editing, t);
    var s2 := FieldState(Editing, t);
    assert Run(s2, value, false, [Blur, Click]).state == FieldState(Editing, t);
    var s1 := FieldState(Editing, value);
    assert Run(s1, value, false, [Type(t), Blur, Click]).state == FieldState(Editing, t);
  }
}
