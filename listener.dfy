/**
 * The caret listener of `AutoLanguageStartupActivity`: on every caret move
 * in one of the project's editors it scans around the caret, switches the
 * keyboard to the detected character's script, records the outcome as the
 * project's status and refreshes the project's widget.
 */
module Listener {
  import opened Wrappers
  import opened CharClass
  import opened CaretScan
  import opened Keyboard
  import opened Status

  /** The switch the listener requests. */
  datatype Action = SwitchArabic | SwitchEnglish | NoSwitch

  /** What one caret event decides: the switch to request and the status to record. */
  datatype Reaction = Reaction(action: Action, status: StatusInfo)

  const NoneStatus := StatusInfo(Space, "None", "No character near cursor")

  /** The dispatch on the detected character: Arabic is tested first, then English, otherwise neutral. */
  function React(detected: Option<Char16>): (r: Reaction)
    ensures r.action == SwitchArabic <==> detected.Some? && Classify(detected.value) == Script.Arabic
    ensures r.action == SwitchEnglish <==> detected.Some? && Classify(detected.value) == Script.English
    ensures detected.Some? ==> r.status.currentChar == detected.value && r.status.language != "None"
    ensures detected.None? ==> r == Reaction(NoSwitch, NoneStatus)
  {
    match detected
    case None => Reaction(NoSwitch, NoneStatus)
    case Some(c) =>
      if IsArabic(c) then Reaction(SwitchArabic, StatusInfo(c, "Arabic", "Switched to Arabic"))
      else if IsEnglish(c) then Reaction(SwitchEnglish, StatusInfo(c, "English", "Switched to English"))
      else Reaction(NoSwitch, StatusInfo(c, "Neutral", "Neutral character detected"))
  }

  /** The user32 calls a reaction issues, given the recorded layouts and the live layout. */
  function ActionCalls(action: Action, arabic: Hkl, english: Hkl, current: Hkl, foreground: Hwnd): seq<Call> {
    match action
    case SwitchArabic => SwitchCalls(Language.Arabic, arabic, current, foreground)
    case SwitchEnglish => SwitchCalls(Language.English, english, current, foreground)
    case NoSwitch => []
  }

  /** The live layout after a reaction. */
  function ActionLayout(action: Action, arabic: Hkl, english: Hkl, current: Hkl): Hkl {
    match action
    case SwitchArabic => LayoutAfter(Language.Arabic, arabic, current)
    case SwitchEnglish => LayoutAfter(Language.English, english, current)
    case NoSwitch => current
  }

  /** The status an exception records: its message, or "Unknown error" when it has none. */
  function ErrorStatus(message: Option<string>): StatusInfo {
    StatusInfo(Space, "Error", message.GetOr("Unknown error"))
  }

  /** The first document index the listener reads: before the caret if there is one, else at the caret, if any. */
  function FirstRead(offset: int, len: nat): Option<int> {
    if offset > 0 then Some(offset - 1) else if offset < len then Some(offset) else None
  }

  /**
   * The listener's reads throw exactly when the caret lies outside the
   * document: then the very first read is out of range, so nothing but the
   * error status happens; otherwise every read is in range.
   */
  lemma FirstReadFailsIffOutOfRange(offset: int, len: nat)
    ensures (FirstRead(offset, len).Some? && !(0 <= FirstRead(offset, len).value < len)) <==> !(0 <= offset <= len)
  {
  }

  /** A letter just before the caret decides: Arabic switches to Arabic, whatever follows the caret. */
  lemma ArabicBeforeCaretSwitches(doc: seq<Char16>, offset: int)
    requires 0 < offset <= |doc| && IsArabic(doc[offset - 1])
    ensures React(Detect(doc, offset)) == Reaction(SwitchArabic, StatusInfo(doc[offset - 1], "Arabic", "Switched to Arabic"))
  {
    ScriptCharsAreNotWhitespace(doc[offset - 1]);
    DetectBeforeCaret(doc, offset);
  }

  /** An English letter just before the caret switches to English, whatever follows the caret. */
  lemma EnglishBeforeCaretSwitches(doc: seq<Char16>, offset: int)
    requires 0 < offset <= |doc| && IsEnglish(doc[offset - 1])
    ensures React(Detect(doc, offset)) == Reaction(SwitchEnglish, StatusInfo(doc[offset - 1], "English", "Switched to English"))
  {
    ScriptCharsAreNotWhitespace(doc[offset - 1]);
    ArabicEnglishDisjoint(doc[offset - 1]);
    DetectBeforeCaret(doc, offset);
  }

  /** With nothing but whitespace (or nothing) before the caret, a letter at the caret decides. */
  lemma LetterAtCaretSwitches(doc: seq<Char16>, offset: int)
    requires 0 <= offset < |doc|
    requires offset == 0 || IsWhitespace(doc[offset - 1])
    requires IsArabic(doc[offset]) || IsEnglish(doc[offset])
    ensures React(Detect(doc, offset)).action == (if IsArabic(doc[offset]) then SwitchArabic else SwitchEnglish)
    ensures React(Detect(doc, offset)).status.currentChar == doc[offset]
  {
    ScriptCharsAreNotWhitespace(doc[offset]);
    DetectAtCaret(doc, offset);
  }

  /** The "no character" status is recorded exactly when the whole window around the caret is whitespace. */
  lemma NoneIffBlankWindow(doc: seq<Char16>, offset: int)
    requires 0 <= offset <= |doc|
    ensures React(Detect(doc, offset)) == Reaction(NoSwitch, NoneStatus)
            <==> forall j :: InWindow(offset, |doc|, j) ==> IsWhitespace(doc[j])
  {
    DetectNoneIffBlankWindow(doc, offset);
  }

  /**
   * The listener of one project. The IDE's event plumbing (the editor's
   * project check, the caret's offset) is left to the caller, which hands
   * over the document text and the offset.
   */
  class CaretListener {
    const project: ProjectId
    const switcher: KeyboardSwitcher
    const statuses: StatusStore
    const widgets: WidgetHolder

    constructor(project: ProjectId, switcher: KeyboardSwitcher, statuses: StatusStore, widgets: WidgetHolder)
      ensures this.project == project && this.switcher == switcher
      ensures this.statuses == statuses && this.widgets == widgets
    {
      this.project := project;
      this.switcher := switcher;
      this.statuses := statuses;
      this.widgets := widgets;
    }

    /**
     * The dispatch of `caretPositionChanged` on the detected character: the
     * switch and the status `React` gives, with the live layout as the
     * switcher leaves it.
     */
    method Respond(detected: Option<Char16>)
      requires switcher.Valid()
      modifies switcher.user32, statuses
      ensures statuses.statuses == old(statuses.statuses)[project := React(detected).status]
      ensures switcher.user32.calls == old(switcher.user32.calls)
                + ActionCalls(React(detected).action, switcher.arabicLayout, switcher.englishLayout,
                              old(switcher.user32.current), old(switcher.user32.foreground))
      ensures switcher.user32.current == ActionLayout(React(detected).action, switcher.arabicLayout,
                                                      switcher.englishLayout, old(switcher.user32.current))
      ensures switcher.user32.installed == old(switcher.user32.installed)
      ensures switcher.user32.foreground == old(switcher.user32.foreground)
    {
      var c := detected.GetOr(Space);
      ghost var r := React(detected);
      if detected.Some? {
        if IsArabic(c) {
          assert r.action == SwitchArabic;
          switcher.SwitchToArabic();
          statuses.UpdateStatus(project, c, "Arabic", "Switched to Arabic");
        } else if IsEnglish(c) {
          assert r.action == SwitchEnglish;
          switcher.SwitchToEnglish();
          statuses.UpdateStatus(project, c, "English", "Switched to English");
        } else {
          statuses.UpdateStatus(project, c, "Neutral", "Neutral character detected");
        }
      } else {
        statuses.UpdateStatus(project, Space, "None", "No character near cursor");
      }
    }

    /**
     * `caretPositionChanged`. With the caret in the document, the switch and
     * the status are those `React` gives for `Detect`; with the caret outside
     * it, the first read throws and the error status is recorded with the
     * exception's message `failure`. Either way the project's widget, if it
     * has one, is the one refreshed.
     */
    method CaretPositionChanged(doc: seq<Char16>, offset: int, failure: Option<string>) returns (refreshed: Option<WidgetId>)
      requires switcher.Valid() && widgets.Valid()
      modifies switcher.user32, statuses
      ensures 0 <= offset <= |doc| ==>
                var r := React(Detect(doc, offset));
                && statuses.statuses == old(statuses.statuses)[project := r.status]
                && switcher.user32.calls == old(switcher.user32.calls)
                     + ActionCalls(r.action, switcher.arabicLayout, switcher.englishLayout,
                                   old(switcher.user32.current), old(switcher.user32.foreground))
                && switcher.user32.current == ActionLayout(r.action, switcher.arabicLayout, switcher.englishLayout,
                                                           old(switcher.user32.current))
      ensures !(0 <= offset <= |doc|) ==>
                && statuses.statuses == old(statuses.statuses)[project := ErrorStatus(failure)]
                && switcher.user32.calls == old(switcher.user32.calls)
                && switcher.user32.current == old(switcher.user32.current)
      ensures switcher.user32.installed == old(switcher.user32.installed)
      ensures switcher.user32.foreground == old(switcher.user32.foreground)
      ensures refreshed == Get(widgets.widgets, project)
    {
      if !(0 <= offset <= |doc|) {
        FirstReadFailsIffOutOfRange(offset, |doc|);
        statuses.UpdateStatus(project, Space, "Error", failure.GetOr("Unknown error"));
      } else {
        var detected, _ := ScanNearCaret(doc, offset);
        Respond(detected);
      }
      refreshed := widgets.UpdateWidget(project);
    }
  }
}
