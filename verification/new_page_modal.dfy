/** The dialog that creates a page: a proposed name, the choice between an
    empty page and a copy of the current one, and the confirm step that
    refuses a blank name. */
module NewPageModal {
  import opened Text
  import opened Interfaces

  datatype ModalState = ModalState(pageName: string, pageType: CreatePageType)

  /** The fixed prefix of proposed names, "시간표". */
  const NamePrefix: string := "시간표"

  /** The dialog opens proposing "시간표" followed by the next page's
      number, and the empty-page type. */
  function Initial(nextPageId: nat): (st: ModalState)
    ensures st.pageType == EmptyPage
    ensures |st.pageName| > |NamePrefix| && st.pageName[..|NamePrefix|] == NamePrefix
    ensures var digits := st.pageName[|NamePrefix|..];
      (forall i :: 0 <= i < |digits| ==> IsDigit(digits[i])) && DigitsValue(digits) == nextPageId + 1
  {
    var digits := NatToString(nextPageId + 1);
    NatToStringRoundTrip(nextPageId + 1);
    assert (NamePrefix + digits)[|NamePrefix|..] == digits;
    ModalState(NamePrefix + digits, EmptyPage)
  }

  /** The proposal as the payment page actually opens the dialog: no counter
      is passed, so `nextPageId + 1` is `undefined + 1`, which JavaScript
      prints as "NaN". */
  const RenderedProposal: ModalState := ModalState(NamePrefix + "NaN", EmptyPage)

  /** The rendered proposal is the same on every opening and is none of the
      names the dialog is meant to propose: after the prefix it has no
      digits. */
  lemma RenderedProposalIsNaN(nextPageId: nat)
    ensures RenderedProposal.pageName != Initial(nextPageId).pageName
    ensures RenderedProposal.pageName[|NamePrefix|..] == "NaN"
  {
    var name := Initial(nextPageId).pageName;
    assert IsDigit(name[|NamePrefix|..][0]);
    assert RenderedProposal.pageName[|NamePrefix|..] == "NaN";
    assert !IsDigit('N');
  }

  /** Different counters propose different names. */
  lemma InitialNamesDistinct(m: nat, n: nat)
    requires m != n
    ensures Initial(m).pageName != Initial(n).pageName
  {
  }

  /** The proposed name is never blank: confirming it right away creates
      an empty page under that name. */
  lemma InitialAccepted(nextPageId: nat)
    ensures HandleCreate(Initial(nextPageId)) == Create(Initial(nextPageId).pageName, EmptyPage)
  {
    var s := Initial(nextPageId).pageName;
    assert !IsWhitespace(s[0]);
  }

  /** What the dialog reports. */
  datatype Effect = NoEffect | Alert | Create(name: string, kind: CreatePageType) | Close

  /** `handleCreate`: a blank name raises the alert and creates nothing;
      otherwise the name is handed on as typed, untrimmed, with the chosen
      type. */
  function HandleCreate(st: ModalState): (e: Effect)
    ensures e == Alert <==> IsBlank(st.pageName)
    ensures e != Alert ==> e == Create(st.pageName, st.pageType)
  {
    TrimEmptyIffBlank(st.pageName);
    if Trim(st.pageName) == "" then Alert else Create(st.pageName, st.pageType)
  }

  datatype Event =
    | Change(value: string)
    | SelectType(kind: CreatePageType)
    | KeyPress(key: string)
    | ConfirmClick
    | CancelClick
    | BackdropClick

  datatype Step = Step(st: ModalState, effect: Effect)

  /** The dialog's reaction to one event. */
  function Handle(st: ModalState, e: Event): (r: Step)
    ensures r.effect.Create? ==> !IsBlank(st.pageName) && r.effect == Create(st.pageName, st.pageType)
    ensures r.effect == Close <==> e == CancelClick || e == BackdropClick
  {
    match e
    case Change(v) => Step(st.(pageName := v), NoEffect)
    case SelectType(k) => Step(st.(pageType := k), NoEffect)
    case KeyPress(k) => if k == "Enter" then Step(st, HandleCreate(st)) else Step(st, NoEffect)
    case ConfirmClick => Step(st, HandleCreate(st))
    case CancelClick => Step(st, Close)
    case BackdropClick => Step(st, Close)
  }

  /** Enter in the name field takes the same path as the confirm button. */
  lemma EnterIsConfirm(st: ModalState)
    ensures Handle(st, KeyPress("Enter")) == Handle(st, ConfirmClick)
  {
  }

  /** Typing a name and confirming creates exactly when the typed name is
      not blank, and keeps the surrounding whitespace. */
  lemma TypeThenConfirm(st: ModalState, typed: string)
    ensures var r := Handle(Handle(st, Change(typed)).st, ConfirmClick);
      (r.effect == Create(typed, st.pageType) <==> !IsBlank(typed)) &&
      (r.effect == Alert <==> IsBlank(typed))
  {
  }
}
