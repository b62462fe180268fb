/** One page tab: a click selects the page, a double click opens the name
    for editing, leaving the field (blur or Enter) saves the name, and a
    delete button appears while the pointer is over a deletable tab. */
module PageTab {
  import opened Wrappers
  import opened Text

  /** The tab's local state: editing flag, the text being edited, hover. */
  datatype TabState = TabState(isEditing: bool, editingName: string, isHovering: bool)

  /** A tab starts out of edit mode with the page's name in the editor. */
  function Initial(pageName: string): (st: TabState)
    ensures !st.isEditing && !st.isHovering && st.editingName == pageName
  {
    TabState(false, pageName, false)
  }

  /** What the tab reports to its page. */
  datatype Effect = NoEffect | Select | Rename(name: string) | Delete

  datatype Step = Step(st: TabState, effect: Effect)

  /** `handleSave`: a name that is not blank is reported trimmed; a blank
      name puts the page's name back into the editor; editing ends. */
  function HandleSave(pageName: string, st: TabState): (r: Step)
    ensures !r.st.isEditing && r.st.isHovering == st.isHovering
    ensures !IsBlank(st.editingName) ==> r.effect == Rename(Trim(st.editingName)) && r.st.editingName == st.editingName
    ensures IsBlank(st.editingName) ==> r.effect == NoEffect && r.st.editingName == pageName
  {
    TrimEmptyIffBlank(st.editingName);
    if Trim(st.editingName) != "" then Step(st.(isEditing := false), Rename(Trim(st.editingName)))
    else Step(st.(isEditing := false, editingName := pageName), NoEffect)
  }

  /** `handleDoubleClick`: editing starts from the page's current name. */
  function HandleDoubleClick(pageName: string, st: TabState): (st': TabState)
    ensures st'.isEditing && st'.editingName == pageName && st'.isHovering == st.isHovering
  {
    st.(isEditing := true, editingName := pageName)
  }

  /** The delete button is rendered only on a deletable, hovered tab that is
      not being edited. */
  predicate DeleteButtonShown(canDelete: bool, st: TabState) {
    canDelete && st.isHovering && !st.isEditing
  }

  datatype Event =
    | Click
    | DoubleClick
    | MouseEnter
    | MouseLeave
    | Change(value: string)
    | Blur
    | KeyPress(key: string)
    | DeleteClick

  /** The tab's reaction to one event. Click handlers are detached while
      editing; the input and its handlers exist only while editing; the
      delete button only while it is shown, and its click does not reach the
      tab's own click handler. */
  function Handle(pageName: string, canDelete: bool, st: TabState, e: Event): (r: Step)
    ensures r.effect.Rename? ==> st.isEditing && r.effect.name == Trim(st.editingName) && !IsBlank(st.editingName)
    ensures r.effect.Delete? <==> e == DeleteClick && DeleteButtonShown(canDelete, st)
    ensures r.effect.Select? <==> e == Click && !st.isEditing
  {
    match e
    case Click => if st.isEditing then Step(st, NoEffect) else Step(st, Select)
    case DoubleClick => if st.isEditing then Step(st, NoEffect) else Step(HandleDoubleClick(pageName, st), NoEffect)
    case MouseEnter => Step(st.(isHovering := true), NoEffect)
    case MouseLeave => Step(st.(isHovering := false), NoEffect)
    case Change(v) => if st.isEditing then Step(st.(editingName := v), NoEffect) else Step(st, NoEffect)
    case Blur => if st.isEditing then HandleSave(pageName, st) else Step(st, NoEffect)
    case KeyPress(k) => if st.isEditing && k == "Enter" then HandleSave(pageName, st) else Step(st, NoEffect)
    case DeleteClick => if DeleteButtonShown(canDelete, st) then Step(st, Delete) else Step(st, NoEffect)
  }

  /** While editing, clicks and double clicks change nothing at all. */
  lemma ClicksSuppressedWhileEditing(pageName: string, canDelete: bool, st: TabState)
    requires st.isEditing
    ensures Handle(pageName, canDelete, st, Click) == Step(st, NoEffect)
    ensures Handle(pageName, canDelete, st, DoubleClick) == Step(st, NoEffect)
  {
  }

  /** A reported name is never blank and is already trimmed, so saving it
      again reports the same name. */
  lemma RenamedNameIsTrimmed(pageName: string, canDelete: bool, st: TabState, e: Event)
    requires Handle(pageName, canDelete, st, e).effect.Rename?
    ensures var n := Handle(pageName, canDelete, st, e).effect.name;
      !IsBlank(n) && Trim(n) == n
  {
    var n := Handle(pageName, canDelete, st, e).effect.name;
    TrimEmptyIffBlank(st.editingName);
    TrimIdempotent(st.editingName);
    TrimEmptyIffBlank(n);
  }

  /** Blur and Enter save the same way. */
  lemma EnterIsBlur(pageName: string, canDelete: bool, st: TabState)
    ensures Handle(pageName, canDelete, st, KeyPress("Enter")) == Handle(pageName, canDelete, st, Blur)
  {
  }

  /** Editing ends after a save whatever was typed: the Enter key or leaving
      the field always returns the tab to its normal display. */
  lemma SaveEndsEditing(pageName: string, canDelete: bool, st: TabState, typed: string)
    requires st.isEditing
    ensures !Handle(pageName, canDelete, Handle(pageName, canDelete, st, Change(typed)).st, Blur).st.isEditing
  {
  }

  /** Opening the editor and leaving it untouched reports the page's own
      name trimmed, or nothing when that name is blank. */
  lemma DoubleClickThenBlur(pageName: string, canDelete: bool, st: TabState)
    requires !st.isEditing
    ensures var r := Handle(pageName, canDelete, Handle(pageName, canDelete, st, DoubleClick).st, Blur);
      !r.st.isEditing && r.st.editingName == pageName &&
      r.effect == (if IsBlank(pageName) then NoEffect else Rename(Trim(pageName)))
  {
  }
}
