# Name board: a Dafny model of the `Home` page of CrazyNamesClient

CrazyNamesClient is a single page (`app/page.js`) that keeps a list of
names on a REST endpoint (`/names`), shows them grouped under the
upper-cased first letter of each name, and lets the user add, rename,
like, delete, jump to a letter and highlight a random name. This project
models the logic of that page without the network and without the
browser:

- `records.dfy`: the `Name` record (`_id`, `firstName`, `liked`) and `Option`.
- `ordering.dfy`: the sort `fetchNames` runs on the fetched array. The
  array is sorted in place by an insertion sort (`SortInPlace`), proved
  equal to a functional stable sort (`StableSort`). Lemmas prove that the
  result is sorted, is a permutation of the input, keeps tied records in
  their order, and is the only list with those three properties. The
  locale comparison `localeCompare` is a parameter `le`, where `le(a, b)`
  means `a.localeCompare(b) <= 0`. It is assumed only to be a total preorder.
- `grouping.dfy`: the `reduce` that builds `groupedNames` (`GroupNames`,
  a loop over a dictionary, proved equal to the left fold `Group`) and
  `sortedLetters` (`SortedLetters`). Lemmas prove that the grouping is a
  partition of the list that keeps each group in list order, that groups
  of the sorted list are sorted, and that the records shown (group after
  group, in letter order) are the list reordered, and regroup to the same
  groups.
- `text.dfy`: `String.prototype.trim`, used to reject blank input.
- `board.dfy`: the component state (the six `useState` hooks) as the class
  `NameBoard`, with one method per handler. Each handler returns the
  request it sends and any alert or scroll it causes. How a request ended
  is a `bool` parameter. The response of the refresh that follows is a
  `Fetch` parameter. The class invariant `Valid` says the list is always
  sorted by `le`.

Where the code and its description differ, the model follows the code:

- The like toggle refreshes whenever its `PUT` gets an answer, ok or not.
  Add, save and delete refresh only on an ok status.
- Cancel clears only `editId` and keeps the edited text.
- Save sends the edited text without checking for blank input. With no
  edit open, the path is `/names/null`.
- `fetchNames` sorts with the locale comparison, which is not the same as
  a case-insensitive comparison.

## Model

| member | source | states |
|---|---|---|
| `Ordering.StableSort` | app/page.js:32 | the list `fetchNames` stores: the response stably sorted by first name, of the same length (its order, content and uniqueness are the lemmas below) |
| `Ordering.SortInPlace` | app/page.js:32 | the array ends up holding `StableSort` of its old contents |
| `Ordering.InsertInPlace` | app/page.js:32 | one pass moves the record at `i` into place among the sorted records before it and leaves the rest of the array alone |
| `Ordering.StableSortSorted` | app/page.js:32 | the sorted list is ordered by the comparator |
| `Ordering.StableSortPermutes` | app/page.js:32 | the sorted list has exactly the records of the response, with their multiplicities |
| `Ordering.StableSortKeepsTies` | app/page.js:32 | records that compare equal keep their relative order (the sort is stable) |
| `Ordering.StableSortUnique` | app/page.js:32 | two sorted, stable permutations of one list are equal |
| `Ordering.StableSortIsTheStableSort` | app/page.js:32 | any stable sort of the response by the comparator gives `StableSort` of it |
| `Grouping.GroupNames` | app/page.js:121-128 | the dictionary built record by record equals the fold `Group` of the list |
| `Grouping.Letter` | app/page.js:122 | a record's group key: a first character from `a` to `z` becomes its upper-case counterpart from `Alphabet` (`A` to `Z`, the headings of the alphabet bar), and any other first character is its own key, so the key is never a lower-case ASCII letter |
| `Grouping.LetterIgnoresCase` | app/page.js:122 | names whose first characters differ only in ASCII case get the same key, the upper-case letter |
| `Grouping.Group` | app/page.js:121-128 | the dictionary the reduce builds, record by record: each record appended to its letter's list, the list created when missing (its keys and contents are stated by `GroupIsPartition`) |
| `Grouping.Bucket` | app/page.js:121-128 | every record in a letter's group comes from the list and has that letter |
| `Grouping.BucketCounts` | app/page.js:121-128 | each record is in its own letter's group as often as it is in the list, and in no other group |
| `Grouping.BucketEmptyIff` | app/page.js:123-124 | a letter has a non-empty group exactly when some record starts with it |
| `Grouping.GroupIsPartition` | app/page.js:121-128 | the dictionary's keys are the letters of the records, and each key holds exactly that letter's records in list order |
| `Grouping.BucketPositions` | app/page.js:126 | a group is the list read at strictly increasing positions (order is kept) |
| `Grouping.GroupsOfSortedAreSorted` | app/page.js:121-128 | when the list is sorted, every group is sorted |
| `Grouping.SortedLetters` | app/page.js:130 | the letters are exactly the dictionary's keys, each once, in ascending order |
| `Grouping.Concat` | app/page.js:248-256 | the records shown for a sequence of headings: each heading's group in turn (counts in `ConcatCounts`) |
| `Grouping.Displayed` | app/page.js:248-256 | the rendered page: the groups under the sorted headings, in that order (a permutation of the list by `DisplayedIsPermutation`) |
| `Grouping.ConcatCounts` | app/page.js:248-256 | rendering the groups of distinct letters shows each record as often as it is in the list if its letter is among them, else never |
| `Grouping.DisplayedIsPermutation` | app/page.js:248-256 | the rendered records are the list reordered, so the group sizes add up to the list's length |
| `Grouping.BucketAppend` | app/page.js:121-128 | grouping a concatenation concatenates the groups |
| `Grouping.BucketOfConcat` | app/page.js:248-256 | regrouping the rendered records gives each listed letter its own group back |
| `Grouping.RegroupDisplayed` | app/page.js:121-130 | grouping the rendered records again gives the same dictionary |
| `Text.TrimStart` | app/page.js:57 | drops only leading white space and stops at a non-space |
| `Text.TrimEnd` | app/page.js:57 | drops only trailing white space and stops at a non-space |
| `Text.Trim` | app/page.js:57 | the result is the slice of the input left after removing only white space before and after it, and it neither starts nor ends with white space |
| `Text.TrimEmptyIffAllSpace` | app/page.js:57 | the trimmed text is empty exactly when every character is white space |
| `Text.IsBlank` | app/page.js:57 | the add guard: the text counts as blank exactly when every character is white space |
| `Board.FindById` | app/page.js:83 | finds nothing exactly when no record has the id, otherwise the first record with it |
| `Board.PathId` | app/page.js:92 | the edited id as it appears in the update path, the text "null" when no record is being edited |
| `Board.Resync` | app/page.js:27-37 | what a refresh leaves: on an answer, the sorted response, which has the same records with the same multiplicities; on a failure, the current list unchanged |
| `Board.ResyncReplacesOrKeeps` | app/page.js:27-37 | a refresh replaces the list by a sorted, stable permutation of the response, or on failure keeps it unchanged |
| `Board.NameBoard.constructor` | app/page.js:14-19 | empty list, empty inputs, nothing edited or highlighted, no scroll button; the `fetchNames` call on mount (lines 39-41) is a `Refresh` made right after construction |
| `Board.NameBoard.Refresh` | app/page.js:27-37 | only `names` changes, to the sorted response, or not at all on failure; the list stays sorted |
| `Board.NameBoard.AddName` | app/page.js:56-71 | blank input sends nothing and changes nothing; otherwise the text is posted with `liked` false, and only an ok answer clears the input and refreshes |
| `Board.NameBoard.TypeNewName` | app/page.js:192 | only the add input's text changes |
| `Board.NameBoard.StartEdit` | app/page.js:82-88 | a known id opens the editor on it with that record's first name; an unknown id changes nothing |
| `Board.NameBoard.TypeEditName` | app/page.js:272 | only the editor's text changes |
| `Board.NameBoard.CancelEdit` | app/page.js:283 | only the edited id is cleared |
| `Board.NameBoard.SaveEdit` | app/page.js:90-105 | the edited text is sent for the edited id; an ok answer closes the editor and refreshes, otherwise nothing changes |
| `Board.NameBoard.ToggleLike` | app/page.js:107-118 | sends the negation of the current flag; the refresh follows whenever the request was answered |
| `Board.NameBoard.DeleteName` | app/page.js:73-80 | sends a delete for the id; only an ok answer refreshes |
| `Board.NameBoard.RandomPick` | app/page.js:140-152 | on an empty list, the "no names available" notice and no change; otherwise the record at the drawn index is highlighted and scrolled to |
| `Board.NameBoard.GroupsShownSorted` | app/page.js:121-128 | on a board whose list has only been set by refreshes, every letter's group is in first-name order |
| `Board.NameBoard.AlphabetClick` | app/page.js:132-138 | scrolls to the letter's group exactly when some record starts with that letter, otherwise gives the notice for the letter |
| `Board.NameBoard.OnScroll` | app/page.js:45-51 | the scroll-to-top button shows exactly when the offset is above 200 |

## Left out

- Network I/O: `fetch`, HTTP methods, headers, JSON bodies and the base URL. Each request is returned as a `Request` value. Its outcome and the refresh response are parameters.
- What the server does with a request (for example, that a created name appears in the next list). The server is not part of this model.
- Asynchrony: handlers and refreshes run to completion one at a time. Overlapping requests, and the order in which their refreshes land, are not modelled.
- The 3-second `setTimeout` that clears the highlight. It is timer-driven and not modelled.
- `Math.random`: the drawn index is a parameter within the list's bounds.
- React rendering, JSX, CSS classes and the card width formula. Only the order in which records are rendered (groups in letter order) is modelled.
- DOM effects: `scrollIntoView`, `scrollTo`, `scrollBy`, event listeners and refs. They appear only as `Effect` values. `scrollToTop`, `scrollAlphabetLeft` and `scrollAlphabetRight` only call the DOM and are not modelled.
- `console.error`. `alert` is modelled as a returned `Notice`.
- Locale collation: `localeCompare` is any total preorder `le` on strings.
- Grouping.Letter: upper-cases ASCII letters only and yields one character. Unicode case mapping, which can give several characters, is not modelled.
- Strings are sequences of Unicode scalar values, not UTF-16 code units. `firstName[0]` of a name that starts with a surrogate pair is not modelled.
- Grouping.GroupNames, Grouping.Group, Grouping.Letter, Grouping.Bucket, Grouping.Displayed and the grouping lemmas: require every first name to be non-empty (`AllNamed`). On an empty first name, `firstName[0]` is `undefined` at line 122 and the page throws while grouping. That exception is not modelled.
- Board.NameBoard.AlphabetClick: requires every first name to be non-empty. On an empty first name the page throws while rendering, so the alphabet bar is never reached.
- components/Crazy.jsx: it only renders a constant list from a module that is not part of this model.
