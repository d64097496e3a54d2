# AutoLanguagePlugin core in Dafny

AutoLanguagePlugin is an IntelliJ plugin for Windows. It switches the keyboard between Arabic and English layouts by looking at the text around the caret. This project models its core and proves properties of the model:

- **The caret listener** (`AutoLanguageStartupActivity.kt`). On every caret move it picks one "detected" character:
  - first the character before the caret;
  - then the character at the caret;
  - then, in rounds `i = 1..5`, the characters at `offset - i` and `offset + i`.

  The first character that is not whitespace wins. The listener then classifies that character as Arabic, English or neutral. It calls the switcher for Arabic or English, records a `(char, language, message)` status for the project, and refreshes the project's status-bar widget.
- **`AutoLanguageStatus` and `AutoLanguageWidgetHolder`**. These are the per-project status map and the per-project widget map.
- **`KeyboardSwitcher`** (`WindowsNative.kt`). At start-up it lists up to 16 installed keyboard layouts and records, for each of Arabic and English, the last listed handle of that language. A handle's language is read from its low word masked with `0x3FF`. On request it switches to a recorded layout, but only if one was found and the live layout is of another language. A switch posts `WM_INPUTLANGCHANGEREQUEST` to the foreground window and then calls `ActivateKeyboardLayout`.

The modules follow the program:

- `CharClass`: the classifier and Kotlin's `isWhitespace`.
- `CaretScan`: the scan, both as the reading order `VisitOrder` with its first hit `Detect`, and as the code's own loops in `ScanNearCaret`.
- `Keyboard`: the `user32` calls as an object with state, plus `KeyboardSwitcher`.
- `Status`: the status store, the character display and the widget holder.
- `Listener`: the dispatch and `caretPositionChanged`.

The operating system is an object whose state is:

- the installed layouts;
- the calling thread's live layout;
- the foreground window;
- the append-only list of `PostMessageA` and `ActivateKeyboardLayout` calls the plugin issued.

Characters are UTF-16 code units (`Char16`, 0..0xFFFF). Layout handles are 64-bit vectors, as Kotlin `Long`s are.

The model follows the code, which differs from a plain description of the plugin in five places:

- There is no remembered "last applied language". The only guard against repeated requests is the query of the live layout.
- At start-up the last matching layout wins, not the first.
- The fallback loop's first round reads `offset - 1` again, not `offset - 2`. The reading order is `offset-1, offset, offset-1, offset+1, offset-2, offset+2, …, offset-5, offset+5`.
- The radius is fixed at 5.
- The listener has no "enabled" setting that gates it.

## Model

| member | source | states |
|---|---|---|
| CharClass.IsArabic | src/main/kotlin/com/autolanguage/AutoLanguageStartupActivity.kt:132-139 | a code unit is Arabic exactly when it lies in 0600-06FF, 0750-077F, 08A0-08FF, FB50-FDFF or FE70-FEFF |
| CharClass.IsEnglish | src/main/kotlin/com/autolanguage/AutoLanguageStartupActivity.kt:141 | a code unit is English exactly when it is an ASCII letter `a`-`z` or `A`-`Z` |
| CharClass.IsWhitespace | src/main/kotlin/com/autolanguage/AutoLanguageStartupActivity.kt:69 | the `isWhitespace` test the scan applies to every character it reads: the Unicode space separators, line and paragraph separators, U+0009..U+000D and U+001C..U+001F |
| CharClass.Classify | src/main/kotlin/com/autolanguage/AutoLanguageStartupActivity.kt:107-115 | Arabic exactly for codes in the five Arabic ranges, English exactly for ASCII letters, neutral exactly for everything else |
| CharClass.ArabicEnglishDisjoint | src/main/kotlin/com/autolanguage/AutoLanguageStartupActivity.kt:132-141 | no character is both Arabic and English, so testing English first would classify every character the same |
| CharClass.ScriptCharsAreNotWhitespace | src/main/kotlin/com/autolanguage/AutoLanguageStartupActivity.kt:132-141 | Arabic and English characters are never whitespace, so the scan never skips a letter it could classify |
| CaretScan.Rings | src/main/kotlin/com/autolanguage/AutoLanguageStartupActivity.kt:84-101 | the indices that rounds `1..n` of the fallback read all lie in the document and within `n` of the caret |
| CaretScan.VisitOrder | src/main/kotlin/com/autolanguage/AutoLanguageStartupActivity.kt:67-101 | every index the listener may read lies in the document and in the window `[offset-5, offset+5]` |
| CaretScan.FirstHit | src/main/kotlin/com/autolanguage/AutoLanguageStartupActivity.kt:64-101 | the position of the first non-whitespace character in a reading order: every earlier position holds whitespace, and it is the end of the order when there is none |
| CaretScan.Detect | src/main/kotlin/com/autolanguage/AutoLanguageStartupActivity.kt:64-104 | a detected character is never whitespace |
| CaretScan.RingsPrefix | src/main/kotlin/com/autolanguage/AutoLanguageStartupActivity.kt:84-101 | rounds `1..i` are read before any later round (a prefix of the reading order) |
| CaretScan.RingsCover | src/main/kotlin/com/autolanguage/AutoLanguageStartupActivity.kt:84-101 | every document index within `n` of the caret, other than the caret's own, is read by rounds `1..n` |
| CaretScan.VisitOrderIsWindow | src/main/kotlin/com/autolanguage/AutoLanguageStartupActivity.kt:67-101 | the listener reads an index exactly when it lies in the document within 5 of the caret (both directions) |
| CaretScan.DetectFirstHit | src/main/kotlin/com/autolanguage/AutoLanguageStartupActivity.kt:64-101 | a non-whitespace character in the reading order with only whitespace before it is the detected character |
| CaretScan.DetectBeforeCaret | src/main/kotlin/com/autolanguage/AutoLanguageStartupActivity.kt:67-72 | a non-whitespace character just before the caret is detected, whatever else the document holds |
| CaretScan.DetectAtCaret | src/main/kotlin/com/autolanguage/AutoLanguageStartupActivity.kt:75-80 | otherwise (no character or whitespace before the caret) a non-whitespace character at the caret is detected |
| CaretScan.DetectNoneIffBlankWindow | src/main/kotlin/com/autolanguage/AutoLanguageStartupActivity.kt:83-104 | nothing is detected exactly when every document character within 5 of the caret is whitespace |
| CaretScan.DetectIsLocal | src/main/kotlin/com/autolanguage/AutoLanguageStartupActivity.kt:67-101 | two documents that reach equally far past the caret (the same length, or both longer than `offset + 5`) and agree on the characters within 5 of the caret lead to the same detection, whatever their lengths and other characters |
| CaretScan.RingsSameReach | src/main/kotlin/com/autolanguage/AutoLanguageStartupActivity.kt:84-101 | the fallback rounds read the same indices in two documents that reach equally far past the caret |
| CaretScan.FirstHitAgree | src/main/kotlin/com/autolanguage/AutoLanguageStartupActivity.kt:64-101 | the first hit in a reading order depends only on the characters at the positions it visits |
| CaretScan.ScanFallback | src/main/kotlin/com/autolanguage/AutoLanguageStartupActivity.kt:82-102 | after blank adjacent characters, the `for (i in 1..5)` loop with `break` reads a prefix of the remaining reading order, stops at its first non-whitespace character, and otherwise reads all of it |
| CaretScan.ScanNearCaret | src/main/kotlin/com/autolanguage/AutoLanguageStartupActivity.kt:63-104 | every `getText` read lies in the window and the document (none throws); the reads are a prefix of the reading order; all but the last find whitespace; the result is `Detect` |
| Keyboard.IsArabicId | src/main/kotlin/com/autolanguage/WindowsNative.kt:39-42 | a language identifier is Arabic exactly when its low 10 bits are 0x01 |
| Keyboard.IsEnglishId | src/main/kotlin/com/autolanguage/WindowsNative.kt:44-47 | a language identifier is English exactly when its low 10 bits are 0x09 |
| Keyboard.IsArabicLayout | src/main/kotlin/com/autolanguage/WindowsNative.kt:65-68 | a layout handle is Arabic exactly when its low word is an Arabic language identifier |
| Keyboard.IsEnglishLayout | src/main/kotlin/com/autolanguage/WindowsNative.kt:70-73 | a layout handle is English exactly when its low word is an English language identifier |
| Keyboard.ChangeRequest | src/main/kotlin/com/autolanguage/WindowsNative.kt:75-81 | the two calls of a layout change, in order: `PostMessageA(foreground, 0x0050, 0, layout)` then `ActivateKeyboardLayout(layout, 1)` |
| Keyboard.SwitchCalls | src/main/kotlin/com/autolanguage/WindowsNative.kt:49-59 | the calls a switch issues: the change request for the recorded layout when it is non-zero and the live layout is of another language, and none otherwise |
| Keyboard.LayoutAfter | src/main/kotlin/com/autolanguage/WindowsNative.kt:49-59 | the live layout after a switch: the recorded layout when the switch issues its request, the unchanged live layout otherwise |
| Keyboard.Listed | src/main/kotlin/com/autolanguage/WindowsNative.kt:30-31 | the handles the 16-entry buffer receives: the installed handles, cut to the first 16 |
| Keyboard.LastLayoutFor | src/main/kotlin/com/autolanguage/WindowsNative.kt:29-37 | the handle `init` records for a language: the handle at the last listed position of that language, or 0 when there is none |
| Keyboard.LanguageOfLowBits | src/main/kotlin/com/autolanguage/WindowsNative.kt:39-73 | a handle's language depends only on its low 10 bits; no handle is both Arabic and English; 0 is neither |
| Keyboard.SwitchRequestShape | src/main/kotlin/com/autolanguage/WindowsNative.kt:49-81 | a switch issues calls exactly when the target is non-zero and the live layout is of another language; then it issues exactly a `PostMessageA` carrying the target and then `ActivateKeyboardLayout(target, KLF_ACTIVATE)` |
| Keyboard.SwitchIdempotent | src/main/kotlin/com/autolanguage/WindowsNative.kt:49-68 | after a switch to a recorded layout, that language is live, so an immediate second switch issues nothing |
| Keyboard.LastIndexFor | src/main/kotlin/com/autolanguage/WindowsNative.kt:29-37 | the position of the last listed handle of the language: that handle is of the language and no later one is |
| Keyboard.LastLayoutForLanguage | src/main/kotlin/com/autolanguage/WindowsNative.kt:29-37 | the recorded handle is 0 exactly when no listed handle is of the language, and otherwise is of the language |
| Keyboard.User32.constructor | src/main/kotlin/com/autolanguage/WindowsNative.kt:10-16 | the operating system starts with the given installed layouts, live layout and foreground window, and no calls issued |
| Keyboard.User32.GetForegroundWindow | src/main/kotlin/com/autolanguage/WindowsNative.kt:18 | returns the foreground window |
| Keyboard.User32.PostMessageA | src/main/kotlin/com/autolanguage/WindowsNative.kt:19 | appends exactly this message to the call list and changes nothing else |
| Keyboard.User32.GetKeyboardLayoutList | src/main/kotlin/com/autolanguage/WindowsNative.kt:20 | copies the first `min(installed, nBuff)` handles into the buffer, leaves the rest of it alone, and returns how many it copied |
| Keyboard.User32.GetKeyboardLayout | src/main/kotlin/com/autolanguage/WindowsNative.kt:21 | returns the live layout |
| Keyboard.User32.ActivateKeyboardLayout | src/main/kotlin/com/autolanguage/WindowsNative.kt:22 | appends the call, makes the handle live and returns the previous live layout |
| Keyboard.KeyboardSwitcher.constructor | src/main/kotlin/com/autolanguage/WindowsNative.kt:29-37 | among the (at most 16) listed layouts, the recorded Arabic and English handles are the last of their language, or 0; each recorded handle is 0 or of its language |
| Keyboard.KeyboardSwitcher.ScanLayouts | src/main/kotlin/com/autolanguage/WindowsNative.kt:32-36 | the loop over the first `count` listed handles, in which every match overwrites the previous one, ends with the last match of each language |
| Keyboard.KeyboardSwitcher.GetCurrentLayout | src/main/kotlin/com/autolanguage/WindowsNative.kt:61-63 | returns the calling thread's live layout |
| Keyboard.KeyboardSwitcher.SendChangeRequest | src/main/kotlin/com/autolanguage/WindowsNative.kt:75-81 | appends `PostMessageA(foreground, 0x0050, 0, layout)` and then `ActivateKeyboardLayout(layout, 1)`, and makes the layout live |
| Keyboard.KeyboardSwitcher.SwitchToArabic | src/main/kotlin/com/autolanguage/WindowsNative.kt:49-53 | appends the change request exactly when the Arabic handle is non-zero and the live layout is not Arabic, and nothing otherwise; afterwards an Arabic layout is live whenever one was recorded; the recorded handles are untouched |
| Keyboard.KeyboardSwitcher.SwitchToEnglish | src/main/kotlin/com/autolanguage/WindowsNative.kt:55-59 | the same with the English handle and `isEnglishLayout` |
| Status.StatusStore.constructor | src/main/kotlin/com/autolanguage/AutoLanguageStartupActivity.kt:26 | no project has an entry, so every project reads the default |
| Status.StatusStore.UpdateStatus | src/main/kotlin/com/autolanguage/AutoLanguageStartupActivity.kt:28-37 | the project reads exactly the new `(char, language, message)` afterwards; every other project reads what it read before |
| Status.StatusStore.GetStatus | src/main/kotlin/com/autolanguage/AutoLanguageStartupActivity.kt:28-42 | returns the project's last update, or `(' ', "Ready", "Waiting for input...")` if it was never updated; inserting the default entry changes no project's reading |
| Status.StatusStore.GetCurrentLayoutName | src/main/kotlin/com/autolanguage/AutoLanguageStartupActivity.kt:44-47 | "Arabic" exactly when the live layout is Arabic, "English" exactly when it is not |
| Status.CharDisplay | src/main/kotlin/com/autolanguage/AutoLanguageStartupActivity.kt:187 | the widget's display of the detected character: a blank shown as itself, any other character between single quotes |
| Status.CharDisplayInjective | src/main/kotlin/com/autolanguage/AutoLanguageStartupActivity.kt:187 | two characters displayed alike are the same character |
| Status.Get | src/main/kotlin/com/autolanguage/AutoLanguageStartupActivity.kt:220 | `widgets[project]`: the widget of the entry with that project, or none |
| Status.Put | src/main/kotlin/com/autolanguage/AutoLanguageStartupActivity.kt:209 | `widgets[project] = widget`: an existing entry of the project gets the new widget in place, otherwise a new entry goes last |
| Status.Remove | src/main/kotlin/com/autolanguage/AutoLanguageStartupActivity.kt:215 | `widgets.remove(project)`: the entry list without the project's entries, the others in their order |
| Status.FindProject | src/main/kotlin/com/autolanguage/AutoLanguageStartupActivity.kt:213 | `widgets.entries.find { it.value == widget }?.key`: the project of the first entry, in insertion order, that holds the widget |
| Status.GetSome | src/main/kotlin/com/autolanguage/AutoLanguageStartupActivity.kt:220 | a project has a widget exactly when some entry carries its key |
| Status.GetFinds | src/main/kotlin/com/autolanguage/AutoLanguageStartupActivity.kt:220 | a widget found for a project is held in an entry of that project |
| Status.GetPut | src/main/kotlin/com/autolanguage/AutoLanguageStartupActivity.kt:208-210 | after `widgets[p] = w`, `p` maps to `w` and every other project maps to what it did |
| Status.PutKeys | src/main/kotlin/com/autolanguage/AutoLanguageStartupActivity.kt:208-210 | `widgets[p] = w` keeps one entry per project; it adds an entry only for a new project |
| Status.GetRemove | src/main/kotlin/com/autolanguage/AutoLanguageStartupActivity.kt:215 | after `widgets.remove(p)`, `p` has no widget and every other project keeps its own |
| Status.RemoveKeeps | src/main/kotlin/com/autolanguage/AutoLanguageStartupActivity.kt:215 | removal keeps one entry per project and adds no entry |
| Status.FindProjectHolds | src/main/kotlin/com/autolanguage/AutoLanguageStartupActivity.kt:213 | the project `find` returns holds the widget, and `find` returns nothing exactly when no entry holds it |
| Status.WidgetHolder.constructor | src/main/kotlin/com/autolanguage/AutoLanguageStartupActivity.kt:206 | no project has a widget |
| Status.WidgetHolder.SetWidget | src/main/kotlin/com/autolanguage/AutoLanguageStartupActivity.kt:208-210 | the project now maps to the widget, other projects keep theirs, and each project keeps a single entry |
| Status.WidgetHolder.RemoveWidget | src/main/kotlin/com/autolanguage/AutoLanguageStartupActivity.kt:212-217 | the first project in insertion order that holds the widget loses its entry: the new entry list is the old one without it, the remaining entries in their order; with no such project nothing changes; one entry per project is kept |
| Status.WidgetHolder.UpdateWidget | src/main/kotlin/com/autolanguage/AutoLanguageStartupActivity.kt:219-221 | the widget refreshed is the project's widget, and there is none exactly when the project has no entry |
| Listener.React | src/main/kotlin/com/autolanguage/AutoLanguageStartupActivity.kt:104-118 | switch to Arabic exactly for an Arabic character and to English exactly for an English one; a detected character is the status's character; nothing detected gives no switch and `(' ', "None", "No character near cursor")` |
| Listener.FirstReadFailsIffOutOfRange | src/main/kotlin/com/autolanguage/AutoLanguageStartupActivity.kt:67-80 | the first `getText` read falls outside the document exactly when the caret does, which is the only way into the `catch` branch |
| Listener.ArabicBeforeCaretSwitches | src/main/kotlin/com/autolanguage/AutoLanguageStartupActivity.kt:67-109 | an Arabic character just before the caret gives a switch to Arabic and the status `(c, "Arabic", "Switched to Arabic")`, whatever follows |
| Listener.EnglishBeforeCaretSwitches | src/main/kotlin/com/autolanguage/AutoLanguageStartupActivity.kt:67-112 | an English letter just before the caret gives a switch to English and the status `(c, "English", "Switched to English")` |
| Listener.LetterAtCaretSwitches | src/main/kotlin/com/autolanguage/AutoLanguageStartupActivity.kt:75-112 | with no character or only whitespace before the caret, a letter at the caret decides the switch and is the status's character |
| Listener.NoneIffBlankWindow | src/main/kotlin/com/autolanguage/AutoLanguageStartupActivity.kt:83-117 | no switch and the "None" status happen exactly when the window around the caret is all whitespace |
| Listener.CaretListener.constructor | src/main/kotlin/com/autolanguage/AutoLanguageStartupActivity.kt:54 | the listener is bound to its project and to the shared switcher, status store and widget holder |
| Listener.CaretListener.Respond | src/main/kotlin/com/autolanguage/AutoLanguageStartupActivity.kt:104-118 | makes exactly one update of the project's status, to `React`'s status; issues the calls of the switch `React` picks (none for neutral or nothing detected); leaves the live layout as that switch does; the installed layouts and the foreground window are unchanged |
| Listener.CaretListener.CaretPositionChanged | src/main/kotlin/com/autolanguage/AutoLanguageStartupActivity.kt:55-125 | with the caret in the document, the status and the OS calls are those of `React(Detect(doc, offset))`; with the caret outside it, only the error status (the exception's message, or "Unknown error") is recorded and no OS call is made; either way the project's widget is the one refreshed, and the installed layouts and the foreground window are unchanged |

## Left out

- IDE plumbing (`AutoLanguageStartupActivity.kt:51-62, 129`) is left to the caller. This covers listener registration, the editor-project filter and the null-caret return. `CaretPositionChanged` receives the document text and the offset.
- `CharClass.IsWhitespace` models Kotlin's `Char.isWhitespace`, which is a JDK library function, by writing out its character table. The table is the categories Zs, Zl and Zp plus U+0009..U+000D and U+001C..U+001F, as of Unicode 15 (the data of the JDK 21 runtime the build targets). Other Unicode versions are not modelled.
- Win32 semantics are not modelled; only the calls themselves are. `PostMessageA` is only logged. Whether the foreground window honours the request is not modelled.
- `ActivateKeyboardLayout` is taken to make the handle the thread's live layout, which is what a later `GetKeyboardLayout(0)` reads back. This is the assumption behind `SwitchToArabic`'s "Arabic is live afterwards".
- Native loading (JNA) is not modelled.
- `KLF_SETFORPROCESS` is declared but never used by the code.
- `Keyboard.User32.PostMessageA` returns nothing: the switcher ignores the Boolean result.
- `KeyboardSwitcher` is a Kotlin object that is initialised on first use. It is modelled as a constructor run once. The split of its `init` loop into `ScanLayouts` is a proof device.
- Exceptions other than an out-of-range read are not modelled, for example a native call that fails. The exception's message is a parameter (`failure`), because the editor's message text is not part of this model.
- Swing rendering and the widget factory (`AutoLanguageStartupActivity.kt:144-201`) are not modelled. This covers the label and tooltip text, `revalidate` and `repaint`. `UpdateWidget` returns which widget `updateDisplay` runs on; the display itself is represented only by `CharDisplay`.
- The mutable `StatusInfo` records are modelled as values that an update replaces. They never leave `AutoLanguageStatus`, so no alias can observe the difference.
- Concurrency is not modelled: calls are single-threaded, and the maps are not synchronized in the code either.
- The settings (`AutoLanguageSettings.kt`, `AutoLanguageConfigurable.kt`), the icons (`AutoLanguageIcons.kt`) and `build.gradle.kts` are outside the core. The listener never reads the settings.
