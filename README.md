# obsidian-dated-notes: chronological navigation, in Dafny

The plugin (main.ts) adds two commands to Obsidian, "Go to next file" and "Go to previous
file". From the active note, they open the sibling note whose "YY-MM-DD" basename is the
closest date strictly after or strictly before the active note's date. If there is no such
note, they show the notice "No next file!" or "No previous file!". The plugin also loads its
settings by merging the stored record over `DEFAULT_SETTINGS`.

The model has five modules:

- `Wrappers`: `Option`. `None` plays JavaScript's `null`, and also an Invalid Date.
- `Navigator`: the two commands, written as methods whose `for` loop mirrors the source loop.
  The locals `largerDate`/`largerFile` and `smallerDate`/`smallerFile` are kept. The date
  parser is a parameter `decode: string -> Option<int>`. `decode(b)` is the timestamp
  `moment(b, "YY-MM-DD").toDate()` gives, and `None` is an Invalid Date. `DateLess` is
  JavaScript's `<` on two Dates: it is false when either one is invalid. A command ends in an
  `Action`, either `OpenFile(index)` (the child at `index` in the folder listing) or
  `ShowNotice(message)`. The ghost predicates `IsNext`/`IsPrevious` say which child the
  commands must open.
- `Settings`: `loadSettings` as a map override.
- `DateCodec`: a strict reference reading of "YY-MM-DD". It only supplies concrete dates for
  the scenarios. The navigator's contracts depend only on the `Option<int>` abstraction.
- `Scenarios`: calls of both commands on a concrete folder, each proved to end in one stated action.

Behaviour of main.ts worth noting:

- An active note whose own name is not a date does not fail. Every comparison with its
  Invalid Date is false, so the command shows its notice (see
  `Navigator.GoToNextFile`, last ensures).
- The date pattern is the constant "YY-MM-DD" in both commands. The only setting is
  `mySetting`, default "default". No date-format setting exists.
- Ties between equal dates go to the first one in listing order. Replacing the chosen child
  needs a strictly closer date.

## Model

| member | source | states |
|---|---|---|
| `Navigator.GoToNextFile` | main.ts:30-60 | Shows "No next file!" exactly when no Markdown child other than the active note has a date strictly later than the active date; otherwise opens the child `IsNext` describes. An undecodable active name always ends in the notice. The loop invariants keep `largerDate` and `largerFile` both null or both set, with `largerDate` the date of `largerFile`. |
| `Navigator.GoToPreviousFile` | main.ts:66-96 | Shows "No previous file!" exactly when no Markdown child other than the active note has a date strictly earlier than the active date; otherwise opens the child `IsPrevious` describes. An undecodable active name always ends in the notice. The loop invariants keep `smallerDate` and `smallerFile` paired the same way. |
| `Navigator.NextIsTightBound` | main.ts:44-53 | The next file is a child in the listing, has extension "md", is not the active note, has a valid date strictly later than the active date, and no candidate has a date strictly between the two. |
| `Navigator.PreviousIsTightBound` | main.ts:80-89 | The previous file is an "md" child other than the active note, has a valid date strictly earlier than the active date, and no candidate has a date strictly between the two. |
| `Navigator.NextIsUnique` | main.ts:51-53 | At most one child meets `IsNext`, so the contract of `GoToNextFile` fixes which file is opened. |
| `Navigator.PreviousIsUnique` | main.ts:87-89 | At most one child meets `IsPrevious`, so the contract of `GoToPreviousFile` fixes which file is opened. |
| `Navigator.NextFirstWins` | main.ts:52-53 | Among later candidates with the same winning date, the one listed first is opened. |
| `Navigator.PreviousFirstWins` | main.ts:88-89 | Among earlier candidates with the same winning date, the one listed first is opened. |
| `Navigator.NextExists` | main.ts:40-56 | If any candidate is later than the active note, some child meets `IsNext`, so the notice is shown only when nothing qualifies. |
| `Navigator.PreviousExists` | main.ts:76-92 | If any candidate is earlier than the active note, some child meets `IsPrevious`. The proof goes through the mirror lemma below. |
| `Navigator.PreviousIsMirroredNext` | main.ts:87-89 | A child is the previous file exactly when it would be the next file with every date negated. The two loops differ only in the direction of their comparisons. |
| `Settings.LoadSettings` | main.ts:107-109 | A key present in the stored data takes the stored value. A default key absent from it keeps its `DEFAULT_SETTINGS` value. The result has exactly the default keys plus the stored keys. Stored `null` gives the defaults. |
| `Settings.DefaultsAlwaysPresent` | main.ts:17-19 | Every key of `DEFAULT_SETTINGS`, in particular `mySetting`, is present after loading, whatever was stored. |
| `Settings.SaveThenLoad` | main.ts:108-113 | Storing the loaded settings (`saveSettings`) and loading them again yields the same settings. |
| `DateCodec.Parse` | main.ts:31-34 | A name that parses is a valid calendar date between 1969 and 2068, and formatting that date gives back exactly the name. |
| `DateCodec.ParseFormat` | main.ts:31-34 | Formatting a valid date in "YY-MM-DD" and parsing the result gives back the same date. |
| `DateCodec.Decode` | main.ts:34 | A name decodes to a timestamp exactly when it is the "YY-MM-DD" rendering (`Format`) of some valid date, and then to that date's day number; every other name is an Invalid Date. |
| `DateCodec.DayNumberIsMonotone` | main.ts:51 | Day numbers follow calendar order (year, then month, then day), and distinct dates have distinct day numbers. So comparing decoded values compares dates. |
| `DateCodec.DecodeFollowsCalendar` | main.ts:49-51 | Two decoded names compare as their calendar dates do. |
| `Scenarios.NextInJanuary` | main.ts:30-60 | In a folder with notes 24-01-05, 24-01-10, an undated "todo" note, a "24-01-12" image and 24-01-15, next from 24-01-10 opens 24-01-15. |
| `Scenarios.PreviousInJanuary` | main.ts:66-96 | In the same folder, previous from 24-01-10 opens 24-01-05. |
| `Scenarios.NoPreviousInJanuary` | main.ts:92 | With only 24-01-15 beside it, previous from 24-01-10 shows "No previous file!". |
| `Scenarios.NoNeighbourForUndatedNote` | main.ts:34-56 | From the undated "todo" note both commands show their notice. |

## Left out

- moment's own parser is not modelled; an abstract `decode` stands in for it. It is a foreign library whose lenient parsing rules are not visible. Examples: one-digit fields, trailing text, locale handling. `DateCodec` is a strict reading only, used for the scenarios.
- Time zones and daylight saving time are not modelled. A date stands for its day number, and local midnight is assumed to increase strictly with it.
- Obsidian host calls are not modelled: `getActiveFile()`, `parent.children`, `activeLeaf.openFile` and `Notice`. The sibling listing is an input and the opened file or notice is the output.
- A missing active file or a missing parent folder is not modelled. The source asserts that neither happens (`!`).
- A folder among the children is modelled as an entry whose extension is not "md". It has no extension in Obsidian, so the search skips it just the same.
- Plugin lifecycle, command and setting-tab registration, and the UI classes `SampleModal` and `SampleSettingTab` are not modelled. They are host glue with no logic.
- The async `loadData`/`saveData` persistence is not modelled. `loadData()`'s result is the input of `LoadSettings`.
- Settings.LoadSettings: stored values are modelled as strings. Stored JSON values of other types are not modelled, nor are special keys such as `__proto__`.
- A "create today's note" command is not part of this model. main.ts has no such code.
