# Vijitedia flowsheet core, modelled in Dafny

Vijitedia shows degree programs as flowsheets: a grid of course cards, one
column per semester. Hovering a card highlights its prerequisites and
postrequisites and draws connector lines to them. This project models the
logic behind those pages and proves what it promises:

- **Flowsheet page** (`HomePage`, `HomePageScenarios`):
  - how the current program, the flattened semesters and courses, and the
    number of grid rows are derived;
  - the status of each card: default, hovered, prereq or postreq;
  - the postrequisite filter;
  - the lines the line-calculation effect pushes;
  - the page state as a class (`FlowsheetPage`): the selected program, the
    hovered id (hover, leave, tap-toggle, reset on a program switch), the
    registered cards and the lines.
- **Roman numerals** (`RomanNumerals`): the greedy, table-driven converter
  for 1..3999. It is a method with its loop, proved equal to a specification
  function, and that function's properties are proved as lemmas: the values
  sum to the number, symbols come in non-increasing order, the result is
  empty exactly outside 1..3999, and worked examples.
- **Shared utilities** (`Utils`): the separate lookup-table `toRoman` for
  0..10, and `getSuffix`, which names an honors-track course by its index
  (" I", " I Laboratory", " II", ..., " Project").
- **Program picker navigation** (`FlowsheetHeader`): the key handler that
  moves the focus through the program links, wrapping around at both ends.
- **Program index pages** (`Departments`): the reduce that buckets the
  catalog by department, and the sort of the department keys.
  - The flowsheet index and the calculator index contain this same code
    (app/flowsheet/page.tsx:17-29 and app/calculator/page.tsx:17-29).
  - One model serves both. The table below cites whichever of the two
    copies a member is closest to; the lines are identical in the two files.
- **Elective card** (`ElectiveCards`):
  - which options of an elective slot are disabled;
  - the guarded select handler;
  - the card's popover `open` state;
  - the card face: the chosen option, the slot label, or "Elective".

A few facts about the code shape the model:

- Statuses come from `find` over the program's courses and `includes` on
  the raw `prereqs` lists.
- The elective card receives its conflict set as a ready-made
  `disabledOptionIds` set.
- Lines are pushed in prerequisite-list order, then catalog order.

Module layout: `Prelude` (Option, `find`-style first index, subsequence),
`FlowsheetTypes` (the catalog records), then one module per source file as
listed above.

## Model

| member | source | states |
|---|---|---|
| HomePage.CurrentProgram | app/page.tsx:82-87 | The program whose id is selected, and the first such one in catalog order; with no match, the first program of the catalog |
| HomePage.FlatSemesters | app/page.tsx:89-92 | A semester is in the flattening exactly when it belongs to one of the program's years |
| HomePage.FlatSemestersAppend | app/page.tsx:89-92 | Flattening distributes over concatenation of the year list, so semesters come year by year in order |
| HomePage.AllCourses | app/page.tsx:99-102 | A course is in the list exactly when some semester holds it |
| HomePage.AllCoursesAppend | app/page.tsx:99-102 | The course list of concatenated semester lists is the concatenation of their course lists (semester order is kept) |
| HomePage.AllCoursesLength | app/page.tsx:99-102 | The course list has as many entries as the semesters have courses in total |
| HomePage.AllCoursesSingle | app/page.tsx:99-102 | A single semester flattens to its own course list, in its own order |
| HomePage.FlatSemestersSingle | app/page.tsx:89-92 | A single year flattens to its own semester list, in its own order |
| HomePage.MaxRows | app/page.tsx:94-97 | At least 5, at least every semester's course count, and either 5 or the count of some semester |
| HomePage.FindCourse | app/page.tsx:166 | Finds the first course of the list with that id (no earlier course has it), and finds none exactly when no course has it |
| HomePage.Postreqs | app/page.tsx:146-148 | Keeps exactly the courses whose prerequisites name the hovered id, is no longer than the course list, and is empty when no course names it |
| HomePage.PostreqsKeepOrderAndCount | app/page.tsx:146-148 | The kept courses are a subsequence of the course list (catalog order), each kept as often as the catalog lists it, and no other course occurs |
| HomePage.GetCourseStatus | app/page.tsx:163-171 | Default with nothing hovered (null or ""); hovered iff it is the hovered card; default when the hovered id is unknown to the program; prereq iff listed in the hovered course's prerequisites; postreq iff not a prereq and it lists the hovered course; precedence hovered, then prereq, then postreq |
| HomePage.PostreqStatusAgreesWithFilter | app/page.tsx:146-171 | For a course of the program that is neither hovered nor a prerequisite, the postreq status holds exactly when the postrequisite filter keeps it |
| HomePage.PrereqLines | app/page.tsx:132-144 | No more lines than listed prerequisites, and none when no listed prerequisite has a mounted card |
| HomePage.PrereqLinesCount | app/page.tsx:132-144 | One line per listing: the line from a prerequisite occurs as often as the list names it when its card is mounted, and never otherwise |
| HomePage.PrereqLinesExactly | app/page.tsx:132-144 | A line is pushed exactly when it is a prereq line to the hovered card from a mounted card that the prerequisite list names |
| HomePage.PostreqLines | app/page.tsx:149-158 | No more lines than postrequisites, and none when no postrequisite has a mounted card |
| HomePage.PostreqLinesCount | app/page.tsx:149-158 | One line per postrequisite: the line to an id occurs as often as postrequisites with that id are listed when its card is mounted, and never otherwise |
| HomePage.PostreqLinesExactly | app/page.tsx:149-158 | A line is pushed exactly when it is a postreq line from the hovered card to the mounted card of some postrequisite |
| HomePage.LinesExactly | app/page.tsx:112-161 | Both directions: a line is drawn exactly when it is a prereq line from a mounted card that the hovered course (found in the program) lists, or a postreq line to a mounted card of a course that lists the hovered id |
| HomePage.BuildConnections | app/page.tsx:123-160 | The lines the effect pushes are the prerequisite lines of the hovered course (none if the program has no such course) followed by its postrequisite lines |
| HomePage.PushPrereqLines | app/page.tsx:132-144 | The first `forEach` appends exactly the prerequisite lines to what was pushed before |
| HomePage.PushPostreqLines | app/page.tsx:149-158 | The second `forEach` appends exactly the postrequisite lines to what was pushed before |
| HomePage.FlowsheetPage.constructor | app/page.tsx:71-77 | The first program is selected, nothing is hovered, there are no lines and no registered cards |
| HomePage.FlowsheetPage.SelectProgram | app/page.tsx:104-109 | Switching to another program clears the hovered id, the lines and the card registry; reselecting the same program changes nothing |
| HomePage.FlowsheetPage.MouseEnter | app/page.tsx:304-306 | The entered card becomes the hovered one |
| HomePage.FlowsheetPage.MouseLeave | app/page.tsx:307-309 | Nothing is hovered afterwards |
| HomePage.FlowsheetPage.Click | app/page.tsx:310-317 | Clicking the hovered card clears the hover; clicking any other card hovers it |
| HomePage.FlowsheetPage.MountCard | app/page.tsx:293-298 | The card's id joins the registry and nothing else changes |
| HomePage.FlowsheetPage.UnmountCard | app/page.tsx:299-303 | The card's id leaves the registry and nothing else changes |
| HomePage.FlowsheetPage.RecalculateLines | app/page.tsx:111-161 | With nothing hovered the lines are cleared; when the hovered card is not registered the previous lines stay; otherwise the lines are those of the hovered course over the registered cards |
| HomePageScenarios.CseBsSemesters | app/page.tsx:89-92 | The Computer Science BS fixture flattens to its four semesters, year by year |
| HomePageScenarios.CseBsAllCourses | app/page.tsx:99-102 | Its four semesters flatten to the courses c1..c7 in grid order |
| HomePageScenarios.CseBsRows | app/page.tsx:94-97 | No semester has more than two courses, so the grid keeps the minimum of 5 rows |
| HomePageScenarios.CseBsLayout | data/programs.ts:31-122 | The Computer Science BS fixture flattens to 4 semesters and to the courses c1..c7 in order, and needs the minimum of 5 rows |
| HomePageScenarios.FindDataStructures | app/page.tsx:166 | Looking up c5 in the fixture finds the Data Structures course |
| HomePageScenarios.HoverDataStructuresStatus | app/page.tsx:163-171 | Hovering c5: c5 is hovered, c4 and c3 are prereqs, c7 is a postreq, c1, c2 and c6 are default |
| HomePageScenarios.PostreqsOfDataStructures | app/page.tsx:146-148 | Only c7 lists c5 as a prerequisite |
| HomePageScenarios.DataStructuresPrereqLines | app/page.tsx:132-144 | With every card mounted, c5's prerequisite list (c4, c3) gives the lines c4 to c5 and c3 to c5, in list order |
| HomePageScenarios.HoverDataStructuresLines | app/page.tsx:132-158 | With every card mounted, hovering c5 draws c4 to c5, c3 to c5 and c5 to c7, in that order |
| HomePageScenarios.FreeTextPrereqsDrawNoLines | data/ce.ts:380 | Free-text prerequisites ("Linear Algebra", ...) have no card and draw no line |
| RomanNumerals.RomanMapShape | utils/toRoman.ts:1-15 | The table has 13 entries, ends with (1, "I"), its values strictly decrease and every value is positive with a non-empty symbol |
| RomanNumerals.GreedyOrdered | utils/toRoman.ts:25-30 | The loop never returns to an earlier table entry: emitted positions never decrease |
| RomanNumerals.GreedySkip | utils/toRoman.ts:25-30 | Table entries larger than what remains are passed over without emitting anything |
| RomanNumerals.GreedySum | utils/toRoman.ts:22-30 | The emitted values account for all that remains: nothing is left once "I" has been passed |
| RomanNumerals.RomanValue | utils/toRoman.ts:22-30 | For 1..3999 the symbol values of the numeral sum to the number and come in non-increasing order |
| RomanNumerals.RomanNonEmptyExactlyInRange | utils/toRoman.ts:17-33 | The numeral is non-empty if and only if the number is in 1..3999 |
| RomanNumerals.RomanFourAndNine | utils/toRoman.ts:1-15 | 4 is "IV" and 9 is "IX" |
| RomanNumerals.SpellPrepend | utils/toRoman.ts:26-29 | Emitting a symbol in front of a run puts that symbol in front of the run's spelling |
| RomanNumerals.TokensOfNineteenNinetyFour | utils/toRoman.ts:22-30 | For 1994 the loop emits M, CM, XC and IV, in that order |
| RomanNumerals.RomanNineteenNinetyFour | utils/toRoman.ts:1-15 | 1994 is "MCMXCIV" |
| RomanNumerals.EmitKeepsInvariant | utils/toRoman.ts:26-29 | Appending a fitting symbol and subtracting its value keeps `remaining + value(result) = num` and the rest of the greedy run |
| RomanNumerals.AdvanceKeepsInvariant | utils/toRoman.ts:25-26 | Moving on from an entry that no longer fits keeps the loop invariant |
| RomanNumerals.InvariantAtEnd | utils/toRoman.ts:30-32 | After the last table entry the result is the whole numeral |
| RomanNumerals.ToRoman | utils/toRoman.ts:17-33 | The loop computes the numeral: "" for n <= 0 or n >= 4000, and otherwise the greedy spelling whose properties the lemmas above state |
| Utils.ToRoman | lib/utils.ts:8-23 | Defined for 0..10 only; empty exactly for 0; at most four letters |
| Utils.TableAgreesWithGreedy | lib/utils.ts:8-23 | For 1..10 the lookup table gives the same numeral as the greedy converter |
| Utils.Suffix | lib/utils.ts:25-34 | Every suffix starts with a space; index 7 gives " Project" |
| Utils.SuffixDefinedOnTwentyCourses | lib/utils.ts:31 | Every index 0..19 keeps the table index within 0..10 |
| Utils.LaboratoryFollowsLecture | lib/utils.ts:31-32 | Indices 2k and 2k+1 share the numeral, and the odd one adds " Laboratory" |
| Utils.LaboratoryIffOdd | lib/utils.ts:32 | Apart from 7, the suffix ends in " Laboratory" if and only if the index is odd |
| Utils.SuffixNumeral | lib/utils.ts:31 | Apart from 7, the numeral of index i (0..19) is the Roman numeral of i/2 + 1 |
| Utils.ProjectAtSeven | lib/utils.ts:27-30 | Index 7 names the project |
| Utils.GetSuffix | lib/utils.ts:25-34 | The step-by-step construction with its early return yields the suffix above |
| FlowsheetHeader.IndexOf | components/flowsheet/header.tsx:41 | The first position holding the element, or -1 exactly when the element is not in the list |
| FlowsheetHeader.NextIndex | components/flowsheet/header.tsx:45-52 | The next index is in range; down is index + 1 modulo the length, up is index - 1 modulo the length |
| FlowsheetHeader.HandleSheetKeyDown | components/flowsheet/header.tsx:36-58 | Only ArrowDown, ArrowUp, w, s, i and k are handled; an unfocused list gives no move; otherwise the focus moves to an index in range, one down (ArrowDown, s, k) or one up, wrapping at the ends |
| FlowsheetHeader.DownUpInverse | components/flowsheet/header.tsx:46-51 | A step down followed by a step up returns to the start, and vice versa |
| FlowsheetHeader.KeyPressesUndo | components/flowsheet/header.tsx:36-58 | In a list of distinct links, a down key then an up key (or the reverse) gives the focus back to the starting link |
| FlowsheetHeader.DistinctIndexOf | components/flowsheet/header.tsx:41 | In a list of distinct links, `indexOf` finds each link's own position |
| FlowsheetHeader.StepsCompose | components/flowsheet/header.tsx:45-52 | a steps followed by b steps are a + b steps |
| FlowsheetHeader.StepsDownNoWrap | components/flowsheet/header.tsx:47-48 | Down steps that stay inside the list count upwards one by one |
| FlowsheetHeader.FullRound | components/flowsheet/header.tsx:46-48 | As many down presses as there are links bring the focus back to where it started |
| Departments.InDepartment | app/flowsheet/page.tsx:18-24 | A department's bucket holds exactly the catalog's programs of that department, and is empty when no program has that department |
| Departments.DepartmentOrder | app/flowsheet/page.tsx:20-22 | The keys are exactly the departments that occur, with no repeats |
| Departments.OwnDepartment | app/calculator/page.tsx:18-24 | Every program ends up in the bucket of its own department, whose key exists |
| Departments.InDepartmentKeepsOrder | app/calculator/page.tsx:23 | A bucket is a subsequence of the catalog: programs keep their catalog order |
| Departments.NoEmptyBucket | app/calculator/page.tsx:20-23 | No key has an empty bucket |
| Departments.InDepartmentAppend | app/flowsheet/page.tsx:23 | Pushing a program grows its own department's bucket by that program and leaves every other bucket alone |
| Departments.BucketsPartitionPrograms | app/calculator/page.tsx:17-27 | The bucket sizes sum to the number of programs: none is lost or pushed twice |
| Departments.DepartmentOrderAppend | app/flowsheet/page.tsx:20-22 | One more program adds its department to the keys exactly when the department is new |
| Departments.PushKeepsAccumulated | app/flowsheet/page.tsx:18-25 | One reducer step (create the bucket when missing, then push) turns the accumulator for a prefix into the one for the prefix plus that program |
| Departments.GroupByDepartment | app/flowsheet/page.tsx:17-27 | The reduce's keys, in insertion order, are the departments in order of first occurrence; every key has a bucket and each bucket holds exactly that department's programs in catalog order |
| Departments.LexLessIrreflexive | app/flowsheet/page.tsx:29 | The string order never puts a string before itself |
| Departments.LexLessTransitive | app/flowsheet/page.tsx:29 | The string order is transitive |
| Departments.LexLessTotal | app/flowsheet/page.tsx:29 | Any two different strings are ordered one way or the other |
| Departments.Insert | app/calculator/page.tsx:29 | Insertion adds exactly one occurrence of the string |
| Departments.InsertAscending | app/calculator/page.tsx:29 | Inserting into an ascending list keeps it ascending |
| Departments.SortStrings | app/calculator/page.tsx:29 | The sorted keys are a permutation of the keys |
| Departments.SortStringsAscending | app/calculator/page.tsx:29 | The sorted keys are ascending |
| Departments.SortedDepartments | app/calculator/page.tsx:29 | The sorted department keys are ascending and duplicate-free, hence strictly ascending, and are exactly the departments of the catalog |
| Departments.TotalSizePermutation | app/calculator/page.tsx:29 | Reordering the keys does not change the total bucket size, so the sum can be taken over the sorted keys |
| Departments.IndexPage | app/flowsheet/page.tsx:17-29 | Buckets exist exactly for the departments that occur, each non-empty and holding that department's programs in order; every program is in its own bucket; the sorted keys are strictly ascending and are exactly the bucket keys; the bucket sizes sum to the catalog's size |
| ElectiveCards.SelectedNeverDisabled | components/elective-card.tsx:93-97 | The selected option (or any option with its id) is never disabled, even when its id is in the conflict set |
| ElectiveCards.NoConflictSetNoneDisabled | components/elective-card.tsx:95-97 | With no `disabledOptionIds` no option is disabled |
| ElectiveCards.ReselectKeepsOtherOptions | components/elective-card.tsx:93-97 | Changing the selection flips the disabled flag of no option other than those carrying the old or the new selection's id |
| ElectiveCards.DisabledMonotone | components/elective-card.tsx:95-97 | A larger conflict set disables every option a smaller one disables, and an option outside the conflict set is never disabled |
| ElectiveCards.MenuItems | components/elective-card.tsx:92-103 | One row per option, in order, none without an option list; each row's check mark and disabled flag are exactly `isSelected` and `isDisabled` |
| ElectiveCards.MenuItemsOneChecked | components/elective-card.tsx:93-97 | With distinct option ids, at most one row is checked and no checked row is disabled |
| ElectiveCards.Face | components/elective-card.tsx:44-76 | A selected option is shown as its course card; otherwise the slot label, or "Elective" when the label is absent or empty; the placeholder is never empty |
| ElectiveCards.ElectiveCard.constructor | components/elective-card.tsx:36 | The popover starts closed |
| ElectiveCards.ElectiveCard.Trigger | components/elective-card.tsx:38-40 | `trigger()` opens the popover |
| ElectiveCards.ElectiveCard.OpenChange | components/elective-card.tsx:43 | The popover's own open/close report sets `open` |
| ElectiveCards.ElectiveCard.Choose | components/elective-card.tsx:104-109 | Choosing a disabled option calls nothing and leaves `open` unchanged; choosing an enabled one hands exactly that option to `onSelect` and closes the popover |

## Left out

- Screen geometry (bounding rectangles, coordinates, Bézier curves) is left out: it is floating-point layout. A connection is the triple (from id, to id, kind).
- The `contentRef.current` null check of the line effect is left out: it depends on the DOM. The content is taken to be mounted.
- React scheduling is left out. `RecalculateLines` is the effect, run by its host whenever the hovered id or the course list changes. `SelectProgram` is the reset effect, which runs only when the id changes. The order of ref callbacks and effects within one commit is not modelled.
- `cardRefs` maps ids to DOM elements. Only its key set is modelled.
- `focus()`, `scrollIntoView()` and `preventDefault()` are side effects. `HandleSheetKeyDown` returns which item gets the focus, and `Unhandled` versus `Handled` says whether the default was prevented.
- `cn` is left out: it wraps the clsx and tailwind-merge libraries, which are not part of this model.
- The catalog data is left out. Only the Computer Science BS slice and one free-text prerequisite serve as fixtures.
- Credits are fractional, and no modelled code computes with them. They are kept as a plain field.
- GPA and CGPA computation does not occur in the modelled files.
- Presentation-only components (course card, minor and honors pickers, the program sheet markup) are left out.
- The elective card's parent computes `disabledOptionIds`; that computation is not modelled.
- Utils.ToRoman: requires 0..10. The source's table read past the end gives `undefined`, which the model does not represent.
- Utils.Suffix: requires the table index in range (indices -2..19, or 7). Larger indices make the source print " undefined", which the model does not represent.
- Utils.ShiftRightOne: `x >> 1` first converts to a 32-bit integer. The model uses Euclidean halving, which agrees for every index in the domain above.
- RomanNumerals.ToRoman: non-integer arguments are not modelled; the argument is an integer.
- Departments.SortStrings: JavaScript compares UTF-16 code units, and the model compares characters. The two agree on the catalog's ASCII department names. The engine's sort algorithm is not modelled, only its result, which a total order fixes.
- Departments.DepartmentOrder: `Object.keys` lists integer-like keys first. Department names are never integer-like, so insertion order is modelled.
- Departments.GroupByDepartment: the accumulator is a plain `{}`, so for a department named after an `Object.prototype` member ("constructor", "toString", "valueOf", "hasOwnProperty", "__proto__") the test `!acc[dept]` sees the inherited, truthy member, the bucket is never created and the push throws a TypeError. The model gives such a department an ordinary bucket; the catalog has no such department name.
- The programs' `FLOWSHEET_DATA` is a parameter (`catalog`, `programs`), not a constant.
