# McGill dining-hall menu parser, modelled in Dafny

The repository scrapes the weekly menu of McGill's NRH dining hall. It opens
the menu listing page in a headless browser, downloads the menu PDF and
flattens the PDF's text runs into one string with no separators. It then
slices that string into a per-day list of dinner items. This project models
that last step, the parser in `src/loadmenus.ts`, and proves what it does to
any input text:

- `parseMenuText(text, res)` dispatches on the dining-hall code. Only `'nrh'`
  is parsed. Every other code gives an empty list and never fails.
- `parseNrhMenuText(text)` maps over the day names MONDAY … SATURDAY. The
  SATURDAY slot is always empty. SATURDAY only bounds FRIDAY's section.
- Day `i`'s section is `text.split(days[i])[1].split(days[i+1])[0]`. Its
  dinner text is the piece after `"DINNER"`, cut before `"SPECIALS"`,
  `"L E G E N D"` and `"forGRILL ITEMS SANDWICHES"`. The dinner text is split
  into items at each place where an ASCII lower-case letter is followed by an
  ASCII upper-case letter.
- A `[1]` index on a split whose separator does not occur is `undefined` in
  JavaScript. The next `.split` call on it then throws. The model returns
  `Failure(UndefinedSegment(day, marker))` instead.

Files:

- `wrappers.dfy`: `Option` and `Result`.
- `js_split.dfy` (module `JsSplit`): `String.prototype.split` with a
  non-empty string separator (`Split`), and `indexOf` (`IndexOf`). Also its
  first piece (`Head`, i.e. `[0]`) and its second piece (`Second`, i.e. `[1]`,
  `None` when undefined). These two are defined by slicing at `indexOf`, and
  lemmas prove they equal the first and second pieces of `Split`.
- `case_split.dfy` (module `CaseSplit`): the zero-width split
  `/(?<=[a-z])(?=[A-Z])/` (`SplitItems`), written directly with ASCII
  character predicates rather than a regular-expression engine.
- `load_menus.dfy` (module `LoadMenus`): the day list, the `Menu` record,
  the parse error and the two parser functions.

JavaScript's `days.map` has no side effects here, so it is modelled as
computing every slot and then keeping the values in order or the first
failure (`Collect`). That is the same result as the map stopping at its first
throw.

## Model

| member | source | states |
|---|---|---|
| `JsSplit.Split` | src/loadmenus.ts:89-95 | `s.split(sep)` has at least one piece. Joining the pieces with `sep` gives back `s`. No piece contains `sep`. There are two or more pieces exactly when `sep` occurs in `s`. Each piece but the last ends at the first occurrence of `sep` in the rest of the string, so the cuts are at the leftmost non-overlapping occurrences. |
| `JsSplit.IndexOf` | src/loadmenus.ts:89-92 | The index found is an occurrence and no earlier index is one. `None` exactly when `sep` does not occur. |
| `JsSplit.Head` | src/loadmenus.ts:89-95 | `s.split(sep)[0]` is a prefix of `s` that does not contain `sep`. If `sep` occurs, `sep` starts right at its end; otherwise it is all of `s`. |
| `JsSplit.HeadEndsAtFirst` | src/loadmenus.ts:89-95 | No occurrence of `sep` starts before the end of `s.split(sep)[0]`, so the cut is at the first occurrence. |
| `JsSplit.HeadIsFirstPiece` | src/loadmenus.ts:89-95 | `Head` equals the first piece of `Split`, i.e. it is `s.split(sep)[0]`. |
| `JsSplit.Second` | src/loadmenus.ts:89-92 | `s.split(sep)[1]` is defined exactly when `sep` occurs in `s`. It then lies in `s` right after the first `sep`, holds no `sep`, and ends at the end of `s` or at the next `sep`. No occurrence of `sep` starts inside it, so it ends at the first `sep` after the first one. |
| `JsSplit.SecondIsSecondPiece` | src/loadmenus.ts:89-92 | `Second` equals the second piece of `Split` when there is one, and is `None` (undefined) when `Split` gives a single piece. |
| `JsSplit.SecondPiece` | src/loadmenus.ts:89-92 | The second piece is the piece of `s` after the first `sep`: free of `sep`, ending at the end of `s` or at a `sep`. |
| `JsSplit.HeadWithin` | src/loadmenus.ts:89-95 | Cutting a piece of `s` at its first `sep` leaves a piece of `s` at the same place, ending where the original ends or at a `sep`. |
| `JsSplit.CutStep` | src/loadmenus.ts:93-95 | One more `.split(sep)[0]` on a piece free of some separators, ending at one of them, gives a piece at the same place. It is free of those separators and of `sep`, and ends at one of them. |
| `JsSplit.SecondThenHead` | src/loadmenus.ts:89 | `s.split(a)[1].split(b)[0]` lies right after the first `a`, holds neither `a` nor `b`, and ends at the end of `s` or at an `a` or a `b`. |
| `JsSplit.SecondThenThreeHeads` | src/loadmenus.ts:92-95 | `s.split(a)[1].split(b)[0].split(c)[0].split(d)[0]` lies right after the first `a`, holds none of the four separators, and ends at the end of `s` or at one of them. |
| `CaseSplit.SplitItems` | src/loadmenus.ts:97 | The items concatenate back to the dinner text exactly. No item holds a lower-case letter followed by an upper-case letter. Each pair of neighbouring items meets at such a transition. For non-empty text no item is empty. |
| `CaseSplit.ConcatIsJoin` | src/loadmenus.ts:97 | Concatenating the items is `items.join("")`, the same `Join` that inverts the string split. |
| `CaseSplit.SplitItemsUnique` | src/loadmenus.ts:97 | The item list is the only cutting of the text with these three properties, so the contract of `SplitItems` determines its result. |
| `CaseSplit.TitleCaseExample` | src/loadmenus.ts:97 | `"RiceChicken"` gives `["Rice", "Chicken"]`. |
| `CaseSplit.AllCapsPrefixExample` | src/loadmenus.ts:97 | `"PASTAWithSauce"` gives `["PASTAWith", "Sauce"]`, because an upper-to-upper pair is never cut. |
| `CaseSplit.DigitsExample` | src/loadmenus.ts:97 | `"foo1foo2"` gives `["foo1foo2"]`, because digits never trigger a cut. |
| `CaseSplit.EmptyTextExample` | src/loadmenus.ts:97 | The empty dinner text gives one empty item. |
| `LoadMenus.DaySection` | src/loadmenus.ts:84-89 | Day `i`'s section fails exactly when the day's name is absent, with that name as the missing marker. Otherwise it is the piece of the text right after the name's first occurrence. It contains neither the day's name nor the next day's name, and it ends at the end of the text or where one of those two names starts. |
| `LoadMenus.DinnerText` | src/loadmenus.ts:92-95 | Fails exactly when `"DINNER"` is absent from the section, naming `"DINNER"`. Otherwise it is the piece of the section right after the first `"DINNER"`. It contains none of `"DINNER"`, `"SPECIALS"`, `"L E G E N D"`, `"forGRILL ITEMS SANDWICHES"`, and it ends at the end of the section or where one of them starts. |
| `LoadMenus.DayMenu` | src/loadmenus.ts:89-99 | A weekday's menu is built exactly when its name occurs and its section holds `"DINNER"`. A failure names the day, and names as marker the day's name if it is absent, else `"DINNER"`. On success the menu's `dinners` are the items of that day's dinner text, cut by `SplitItems`. |
| `LoadMenus.DinnersComeFromSection` | src/loadmenus.ts:89-97 | The dinner items of a parsed day concatenate back to exactly its dinner text. That text is a piece of its section and of the whole text. They hold no meal marker and neither that day's name nor the next day's. |
| `LoadMenus.Slot` | src/loadmenus.ts:85-99 | The SATURDAY slot is always empty. A weekday slot succeeds exactly when that day parses, and then holds its menu. A failing slot carries the day's error. |
| `LoadMenus.SlotsFollowDays` | src/loadmenus.ts:85-99 | Over the whole list of six slots: SATURDAY's is empty and each weekday's slot follows that day's menu. |
| `LoadMenus.Collect` | src/loadmenus.ts:85-100 | The mapped slots give all their values in order exactly when every slot succeeds. Otherwise the result is the first failure, and every earlier slot succeeded. |
| `LoadMenus.ParseNrhMenuText` | src/loadmenus.ts:81-104 | Succeeds exactly when every weekday MONDAY–FRIDAY has its name in the text and `"DINNER"` in its section. Then there are exactly 6 slots in order, slot `i < 5` holds day `i`'s menu, and the SATURDAY slot is empty. |
| `LoadMenus.FirstFailingDay` | src/loadmenus.ts:85-100 | A failed parse carries the error of a weekday that fails while every earlier weekday parses. |
| `LoadMenus.FailureNamesFirstBadDay` | src/loadmenus.ts:89-92 | Conversely, if weekday `i` is the first that does not parse, the error is exactly `UndefinedSegment(day i, marker)`. The marker is the day's own name if it is absent, else `"DINNER"`. |
| `LoadMenus.MissingMondayFails` | src/loadmenus.ts:89 | Any text without `"MONDAY"` (the empty text, for one) fails on MONDAY's name. |
| `LoadMenus.ParseMenuText` | src/loadmenus.ts:67-75 | Any code other than `"nrh"` gives the empty list and never fails. `"nrh"` gives the NRH parse. |

## Left out

- `loadMenus` (src/loadmenus.ts:24-37) is left out: browser launch and shutdown, with no logic to state.
- `loadMenuText` (src/loadmenus.ts:45-64) is left out: page navigation, DOM query, network fetch and buffer conversion are all I/O in outside libraries. Its null-URL throw is not modelled.
- `src/pdf.ts` is not part of this model: it wraps the PDF library's page loading and text extraction. Its only local logic is the separator-free join of the text runs. The parser takes that joined string as its input.
- The `Menu` interface (src/loadmenus.ts:11-18) declares a field `dinner` and five optional fields. The code builds `{ dinners }` (src/loadmenus.ts:99) and never sets the optional fields. The model's `Menu` has the one field `dinners`, which is what the code returns.
- The parser's error is modelled as a value naming the day and the missing marker. The JavaScript `TypeError` and its message are not modelled.
- Strings are sequences of Dafny characters, not UTF-16 code units. All markers and the split rule are ASCII, so this does not change any cut. Surrogate pairs are not modelled.
- Regular expressions in general are not modelled. Only the one lookbehind/lookahead split is encoded.
- No literal full-week input is evaluated end to end. Instead, for all texts: the failure and shape properties are proved; each parsed day's `dinners` is `SplitItems` of that day's dinner text; and the contract of `SplitItems` says the items concatenate back to that text and are cut exactly at the lower-to-upper transitions.
- `LoadMenus.DaySection`: the end of the section is stated as "end of text, or the day's name, or the next day's name". It does not also say which occurrence of the two names cuts first.
- `LoadMenus.DinnerText`: the end of the dinner text is stated as "end of section, or one of the four markers". It does not also say which occurrence of which marker cuts first.

Behaviour of the code worth noting, which the model follows:

- A digit never causes a cut, so `"foo1foo2"` stays one item.
- A missing `"SPECIALS"`, `"L E G E N D"`, `"forGRILL ITEMS SANDWICHES"` or next-day name never causes a failure. A `[0]` index is always defined, so the string is simply left uncut. Only a missing weekday name or a missing `"DINNER"` fails.
- A day's section is also cut at a second occurrence of the day's own name, because that is where `split(day)[1]` ends.
