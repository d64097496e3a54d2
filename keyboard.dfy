/**
 * `KeyboardSwitcher` and the slice of the Win32 `user32` library it calls.
 *
 * A keyboard-layout handle (HKL) is a Kotlin `Long`; its low word is the
 * language identifier, whose low ten bits are the primary language
 * (0x01 Arabic, 0x09 English). The operating system is an object whose
 * state is the installed layouts, the calling thread's active layout, the
 * foreground window and the requests the plugin has issued.
 */
module Keyboard {

  /** A Kotlin `Long` holding a keyboard-layout handle. */
  type Hkl = bv64

  /** A window handle; only its identity matters here. */
  type Hwnd = nat

  const WM_INPUTLANGCHANGEREQUEST: int := 0x0050
  const KLF_ACTIVATE: int := 0x0000_0001
  const KLF_SETFORPROCESS: int := 0x0000_0100

  /** The size of the buffer the switcher hands to `GetKeyboardLayoutList`. */
  const LayoutListSize: int := 16

  /** `isArabicId`: the primary language of a language identifier is Arabic. */
  predicate IsArabicId(id: bv64) {
    id & 0x3FF == 0x01
  }

  /** `isEnglishId`: the primary language of a language identifier is English. */
  predicate IsEnglishId(id: bv64) {
    id & 0x3FF == 0x09
  }

  /** `isArabicLayout`: the layout's language identifier (its low word) is Arabic. */
  predicate IsArabicLayout(layout: Hkl) {
    IsArabicId(layout & 0xFFFF)
  }

  /** `isEnglishLayout`: the layout's language identifier (its low word) is English. */
  predicate IsEnglishLayout(layout: Hkl) {
    IsEnglishId(layout & 0xFFFF)
  }

  /** The two languages the switcher knows. */
  datatype Language = Arabic | English

  predicate IsLayoutFor(lang: Language, layout: Hkl) {
    match lang
    case Arabic => IsArabicLayout(layout)
    case English => IsEnglishLayout(layout)
  }

  /**
   * A layout's language is decided by its primary-language bits alone: two
   * handles that agree on their low ten bits are of the same language, and
   * no handle is of both languages; 0, the "no layout" value, is of neither.
   */
  lemma LanguageOfLowBits(a: Hkl, b: Hkl)
    ensures a & 0x3FF == b & 0x3FF ==> (IsArabicLayout(a) <==> IsArabicLayout(b)) && (IsEnglishLayout(a) <==> IsEnglishLayout(b))
    ensures !(IsArabicLayout(a) && IsEnglishLayout(a))
    ensures !IsLayoutFor(Arabic, 0) && !IsLayoutFor(English, 0)
  {
  }

  /** A call the plugin issues that changes something outside it. */
  datatype Call =
    | PostMessageA(hWnd: Hwnd, msg: int, wParam: bv64, lParam: bv64)
    | ActivateKeyboardLayout(hkl: Hkl, flags: int)

  /** `sendChangeRequest`: ask the foreground window to change layout, then activate the layout for this thread. */
  function ChangeRequest(foreground: Hwnd, layout: Hkl): seq<Call> {
    [PostMessageA(foreground, WM_INPUTLANGCHANGEREQUEST, 0, layout), ActivateKeyboardLayout(layout, KLF_ACTIVATE)]
  }

  /** The switcher acts only when it knows a layout for the language and the live layout is of another language. */
  predicate Switches(lang: Language, target: Hkl, current: Hkl) {
    target != 0 && !IsLayoutFor(lang, current)
  }

  /** The calls `switchToArabic` / `switchToEnglish` issue, given the recorded target and the live layout. */
  function SwitchCalls(lang: Language, target: Hkl, current: Hkl, foreground: Hwnd): seq<Call> {
    if Switches(lang, target, current) then ChangeRequest(foreground, target) else []
  }

  /** The live layout after `switchToArabic` / `switchToEnglish`. */
  function LayoutAfter(lang: Language, target: Hkl, current: Hkl): Hkl {
    if Switches(lang, target, current) then target else current
  }

  /**
   * A switch to a recorded layout of the language leaves that language live,
   * so an immediate second switch to the same language issues nothing: the
   * live-layout test is the switcher's only guard against repeated requests.
   */
  lemma SwitchIdempotent(lang: Language, target: Hkl, current: Hkl, foreground: Hwnd)
    requires target == 0 || IsLayoutFor(lang, target)
    ensures target != 0 ==> IsLayoutFor(lang, LayoutAfter(lang, target, current))
    ensures SwitchCalls(lang, target, LayoutAfter(lang, target, current), foreground) == []
  {
  }

  /** A switch issues a request exactly when it can and must, and the request names the recorded layout. */
  lemma SwitchRequestShape(lang: Language, target: Hkl, current: Hkl, foreground: Hwnd)
    ensures SwitchCalls(lang, target, current, foreground) != [] <==> target != 0 && !IsLayoutFor(lang, current)
    ensures SwitchCalls(lang, target, current, foreground) != [] ==>
              |SwitchCalls(lang, target, current, foreground)| == 2
              && SwitchCalls(lang, target, current, foreground)[0].PostMessageA?
              && SwitchCalls(lang, target, current, foreground)[0].lParam == target
              && SwitchCalls(lang, target, current, foreground)[1] == ActivateKeyboardLayout(target, KLF_ACTIVATE)
  {
  }

  /** The handles `GetKeyboardLayoutList` reports into a buffer of `LayoutListSize` entries. */
  function Listed(installed: seq<Hkl>): seq<Hkl> {
    if |installed| <= LayoutListSize then installed else installed[..LayoutListSize]
  }

  /**
   * The position of the LAST listed handle of the language (each match the
   * initialisation meets overwrites the previous one), or -1 when none is
   * listed.
   */
  function LastIndexFor(lang: Language, layouts: seq<Hkl>): (k: int)
    ensures -1 <= k < |layouts|
    ensures k >= 0 ==> IsLayoutFor(lang, layouts[k])
    ensures forall j :: k < j < |layouts| ==> !IsLayoutFor(lang, layouts[j])
    decreases |layouts|
  {
    if layouts == [] then -1
    else if IsLayoutFor(lang, layouts[|layouts| - 1]) then |layouts| - 1
    else LastIndexFor(lang, layouts[..|layouts| - 1])
  }

  /** The layout the initialisation records for a language: the last listed match, or 0 when none is listed. */
  function LastLayoutFor(lang: Language, layouts: seq<Hkl>): Hkl {
    var k := LastIndexFor(lang, layouts);
    if k < 0 then 0 else layouts[k]
  }

  /** The recorded layout is 0 exactly when no listed handle is of the language, and otherwise one of that language. */
  lemma LastLayoutForLanguage(lang: Language, layouts: seq<Hkl>)
    ensures LastLayoutFor(lang, layouts) == 0 <==> forall i :: 0 <= i < |layouts| ==> !IsLayoutFor(lang, layouts[i])
    ensures LastLayoutFor(lang, layouts) != 0 ==> IsLayoutFor(lang, LastLayoutFor(lang, layouts))
  {
    LanguageOfLowBits(0, 0);
  }

  /** One more listed handle: it becomes the recorded layout when it is of the language. */
  lemma LastLayoutStep(lang: Language, layouts: seq<Hkl>, i: nat)
    requires i < |layouts|
    ensures LastLayoutFor(lang, layouts[..i + 1])
            == if IsLayoutFor(lang, layouts[i]) then layouts[i] else LastLayoutFor(lang, layouts[..i])
  {
    assert layouts[..i + 1][..i] == layouts[..i];
  }

  /** One iteration of the `init` loop, stated on the listed handles. */
  lemma RecordStep(listed: seq<Hkl>, i: nat, arabic: Hkl, english: Hkl, arabicBefore: Hkl, englishBefore: Hkl)
    requires i < |listed|
    requires arabicBefore == LastLayoutFor(Arabic, listed[..i]) && englishBefore == LastLayoutFor(English, listed[..i])
    requires arabic == if IsArabicId(listed[i] & 0xFFFF) then listed[i] else arabicBefore
    requires english == if IsEnglishId(listed[i] & 0xFFFF) then listed[i] else englishBefore
    ensures arabic == LastLayoutFor(Arabic, listed[..i + 1]) && english == LastLayoutFor(English, listed[..i + 1])
  {
    LastLayoutStep(Arabic, listed, i);
    LastLayoutStep(English, listed, i);
  }

  /** The operating system as seen through the `User32` interface. */
  class User32 {
    /** The installed layouts, in the order `GetKeyboardLayoutList` reports them. */
    var installed: seq<Hkl>
    /** The calling thread's active layout, what `GetKeyboardLayout(0)` returns. */
    var current: Hkl
    var foreground: Hwnd
    /** Every `PostMessageA` and `ActivateKeyboardLayout` issued, oldest first. */
    var calls: seq<Call>

    constructor(installed: seq<Hkl>, current: Hkl, foreground: Hwnd)
      ensures this.installed == installed && this.current == current && this.foreground == foreground
      ensures calls == []
    {
      this.installed := installed;
      this.current := current;
      this.foreground := foreground;
      calls := [];
    }

    method GetForegroundWindow() returns (hWnd: Hwnd)
      ensures hWnd == foreground
    {
      hWnd := foreground;
    }

    /** Posts the message; the switcher ignores the result, so none is modelled. */
    method PostMessageA(hWnd: Hwnd, msg: int, wParam: bv64, lParam: bv64)
      modifies this`calls
      ensures calls == old(calls) + [Call.PostMessageA(hWnd, msg, wParam, lParam)]
    {
      calls := calls + [Call.PostMessageA(hWnd, msg, wParam, lParam)];
    }

    /** Copies the first `nBuff` installed handles (all of them if fewer) into `lpList` and returns how many. */
    method GetKeyboardLayoutList(nBuff: int, lpList: array<Hkl>) returns (count: int)
      requires 0 <= nBuff <= lpList.Length
      modifies lpList
      ensures count == if |installed| <= nBuff then |installed| else nBuff
      ensures lpList[..count] == installed[..count]
      ensures lpList[count..] == old(lpList[count..])
    {
      count := if |installed| <= nBuff then |installed| else nBuff;
      forall i | 0 <= i < count {
        lpList[i] := installed[i];
      }
    }

    method GetKeyboardLayout(idThread: int) returns (layout: Hkl)
      ensures layout == current
    {
      layout := current;
    }

    /** Makes `hkl` the thread's active layout and returns the previous one. */
    method ActivateKeyboardLayout(hkl: Hkl, flags: int) returns (previous: Hkl)
      modifies this`calls, this`current
      ensures calls == old(calls) + [Call.ActivateKeyboardLayout(hkl, flags)]
      ensures current == hkl && previous == old(current)
    {
      previous := current;
      current := hkl;
      calls := calls + [Call.ActivateKeyboardLayout(hkl, flags)];
    }
  }

  /** `KeyboardSwitcher`: the Arabic and English layouts found at start-up, and the requests that switch to them. */
  class KeyboardSwitcher {
    var arabicLayout: Hkl
    var englishLayout: Hkl
    const user32: User32

    /** A recorded layout is 0 or a layout of its language. */
    ghost predicate Valid()
      reads this
    {
      (arabicLayout == 0 || IsArabicLayout(arabicLayout))
      && (englishLayout == 0 || IsEnglishLayout(englishLayout))
    }

    /** `init`: list the installed layouts and record, for each language, the last listed match. */
    constructor(user32: User32)
      ensures this.user32 == user32
      ensures arabicLayout == LastLayoutFor(Arabic, Listed(user32.installed))
      ensures englishLayout == LastLayoutFor(English, Listed(user32.installed))
      ensures Valid()
    {
      this.user32 := user32;
      var layouts := new Hkl[LayoutListSize](_ => 0);
      var count := user32.GetKeyboardLayoutList(LayoutListSize, layouts);
      assert user32.installed[..|user32.installed|] == user32.installed;
      assert layouts[..count] == Listed(user32.installed);
      var arabic, english := ScanLayouts(layouts, count);
      arabicLayout, englishLayout := arabic, english;
      LastLayoutForLanguage(Arabic, layouts[..count]);
      LastLayoutForLanguage(English, layouts[..count]);
    }

    /** The loop of `init`: each listed handle of a language overwrites the one recorded before it. */
    static method ScanLayouts(layouts: array<Hkl>, count: int) returns (arabic: Hkl, english: Hkl)
      requires 0 <= count <= layouts.Length
      ensures arabic == LastLayoutFor(Arabic, layouts[..count])
      ensures english == LastLayoutFor(English, layouts[..count])
    {
      ghost var listed := layouts[..count];
      arabic, english := 0, 0;
      for i := 0 to count
        invariant arabic == LastLayoutFor(Arabic, listed[..i])
        invariant english == LastLayoutFor(English, listed[..i])
      {
        var langId := layouts[i] & 0xFFFF;
        if IsArabicId(langId) {
          arabic := layouts[i];
        }
        if IsEnglishId(langId) {
          english := layouts[i];
        }
        RecordStep(listed, i, arabic, english, LastLayoutFor(Arabic, listed[..i]), LastLayoutFor(English, listed[..i]));
      }
      assert listed[..count] == listed;
    }

    /** `getCurrentLayout`: the live layout of the calling thread. */
    method GetCurrentLayout() returns (layout: Hkl)
      ensures layout == user32.current
    {
      layout := user32.GetKeyboardLayout(0);
    }

    /** `sendChangeRequest`: the two calls of a layout change, the second of which makes `layout` live. */
    method SendChangeRequest(layout: Hkl)
      modifies user32
      ensures user32.calls == old(user32.calls) + ChangeRequest(old(user32.foreground), layout)
      ensures user32.current == layout
      ensures user32.installed == old(user32.installed) && user32.foreground == old(user32.foreground)
    {
      var hWnd := user32.GetForegroundWindow();
      user32.PostMessageA(hWnd, WM_INPUTLANGCHANGEREQUEST, 0, layout);
      var _ := user32.ActivateKeyboardLayout(layout, KLF_ACTIVATE);
    }

    /**
     * `switchToArabic`: requests the recorded Arabic layout unless there is
     * none or an Arabic layout is already live; afterwards an Arabic layout
     * is live whenever one was found at start-up.
     */
    method SwitchToArabic()
      requires Valid()
      modifies user32
      ensures user32.calls == old(user32.calls) + SwitchCalls(Arabic, arabicLayout, old(user32.current), old(user32.foreground))
      ensures user32.current == LayoutAfter(Arabic, arabicLayout, old(user32.current))
      ensures arabicLayout != 0 ==> IsArabicLayout(user32.current)
      ensures user32.installed == old(user32.installed) && user32.foreground == old(user32.foreground)
    {
      if arabicLayout != 0 {
        var currentLayout := GetCurrentLayout();
        if !IsArabicLayout(currentLayout) {
          SendChangeRequest(arabicLayout);
        }
      }
    }

    /** `switchToEnglish`: the same for the recorded English layout. */
    method SwitchToEnglish()
      requires Valid()
      modifies user32
      ensures user32.calls == old(user32.calls) + SwitchCalls(English, englishLayout, old(user32.current), old(user32.foreground))
      ensures user32.current == LayoutAfter(English, englishLayout, old(user32.current))
      ensures englishLayout != 0 ==> IsEnglishLayout(user32.current)
      ensures user32.installed == old(user32.installed) && user32.foreground == old(user32.foreground)
    {
      if englishLayout != 0 {
        var currentLayout := GetCurrentLayout();
        if !IsEnglishLayout(currentLayout) {
          SendChangeRequest(englishLayout);
        }
      }
    }
  }
}
