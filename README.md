# Todo list: toggle-complete and title links

A Dafny model of the two pieces of logic in the `TodoList` React component
(`src/app/components/Todolist.tsx`):

- **Toggle-complete** (`toggleComplete`). The component holds a nullable,
  ordered list of todo records (`id`, `title`, `isCompleted`) and mirrors it
  into the browser's local-storage slot `"todos"`. Toggling an id maps over
  the list and negates `isCompleted` on every record with that id. The new
  list replaces the held list and is written to the mirror. A `null` list is
  left alone.
- **Title linkifier** (`renderTodoTitle`). A title is split with ECMAScript
  `String.prototype.split` on the global pattern `(https?://[^\s]+)`. The
  captured URLs are spliced in between the surrounding pieces of text
  (ECMA-262, section 22.1.3.23 and section 22.2.6.14,
  RegExp.prototype[@@split]). Each piece is then shown as a link if the
  pattern matches anywhere in it, and as plain text otherwise.

Files:

- `todos.dfy`, module `Todos`:
  - the `Todo` record;
  - `ToggleList`, the pure `map` that builds the new list;
  - class `TodoList`, holding the list (`todos`) and the storage mirror
    (`stored`), with the method `ToggleComplete`;
  - lemmas about `ToggleList`.
- `title_links.dfy`, module `TitleLinks`:
  - the match predicate `UrlAt`, with the scheme, the greedy non-whitespace
    run and the end of a match;
  - `NextMatch` and `SplitFrom`, the scan of RegExp.prototype[@@split];
  - `Classify` and `Render`, the `.map` that classifies each piece;
  - `RenderTodoTitle`;
  - lemmas about the result.

Modelling choices:

- `null` is `Option.None`. An absent storage key is also `None`.
- `setTodos(updatedTodos)` becomes an assignment of the held list. This is
  the state React commits on the next render.
- The storage slot stores the list itself. Its JSON text
  (`JSON.stringify`) is abstracted away.
- JavaScript `\s` is `IsSpace`, which lists the WhiteSpace and
  LineTerminator code points of ECMA-262 (Zs as of Unicode 15). The general
  lemmas rely only on none of the scheme characters `h t p s : /` being
  whitespace (`SchemeCharsNotSpace`, and `!IsSpace('h')` in the step after
  a match). The concrete example `BareSchemeIsText` also relies on `' '`
  being whitespace.
- Strings are sequences of code points. JavaScript strings are UTF-16 code
  units. The two views differ only for characters outside the BMP. The
  pattern never looks at those individually: they are never whitespace and
  never part of a scheme.
- The regular expression is written out directly:
  - A match at index `q` is `"https://"` or `"http://"` followed by at least
    one non-whitespace character.
  - The match ends where the longest run of non-whitespace characters ends.
    This is the greedy `[^\s]+`.
  - Backtracking on `s?` never finds another match. If `"https://"` is not
    followed by a non-space, then `"http"` is followed by `s`, not by
    `"://"`.
- `part.match(urlRegex)` is truthy exactly when the pattern matches
  somewhere in `part` (`HasUrl`).

Consequences of the code as written:

- Toggling negates every record whose id matches. No record changes when
  the id is absent (`ToggleMissingIdNoOp`). Exactly one record changes when
  ids are unique (`ToggleUniqueChangesOne`).
- A scheme followed by whitespace or by the end of the title, as in
  `"http:// x"`, is not a match. It stays inside the surrounding text
  (`BareSchemeIsText`).
- The segments are the cuts of the title at its leftmost, greedy matches
  (`LeftmostGreedy`). A Link is exactly the match that starts where the
  Link starts. No match starts at any position of the title covered by a
  Text segment.

## Model

| member | source | states |
|---|---|---|
| `Todos.ToggleList` | src/app/components/Todolist.tsx:53-55 | the mapped list has the same length as the input |
| `Todos.ToggleAt` | src/app/components/Todolist.tsx:53-55 | at every index, id and title are kept, and `isCompleted` is negated exactly when the record's id equals the argument |
| `Todos.ToggleKeepsShape` | src/app/components/Todolist.tsx:53-55 | the length, and the id and title at every index, are unchanged, so record order is kept |
| `Todos.ToggleExactEffect` | src/app/components/Todolist.tsx:54 | a record is unchanged iff its id differs from the argument; a matching record changes only by having its flag negated |
| `Todos.ToggleMissingIdNoOp` | src/app/components/Todolist.tsx:53-55 | the toggled list equals the input iff no record carries the id |
| `Todos.ToggleInvolution` | src/app/components/Todolist.tsx:53-55 | toggling the same id twice gives back the original list |
| `Todos.ToggleUniqueChangesOne` | src/app/components/Todolist.tsx:53-55 | with unique ids, the list changes at the one index carrying the id and nowhere else |
| `Todos.ToggleKeepsUniqueIds` | src/app/components/Todolist.tsx:53-55 | toggling keeps ids unique |
| `Todos.TodoList.constructor` | src/app/components/Todolist.tsx:8-11 | the component starts from the given list (possibly null) and the given storage slot |
| `Todos.TodoList.ToggleComplete` | src/app/components/Todolist.tsx:51-60 | a null list leaves both list and mirror unchanged; otherwise the list becomes the toggled list and the mirror holds the same list |
| `Todos.ToggleTwice` | src/app/components/Todolist.tsx:51-60 | two toggles of the same id leave both the list and the mirror equal to the starting list |
| `TitleLinks.IsSpace` | src/app/components/Todolist.tsx:24 | the characters `\s` matches: the ECMAScript WhiteSpace and LineTerminator code points |
| `TitleLinks.UrlAt` | src/app/components/Todolist.tsx:24 | the pattern matches at an index: `https://` or `http://`, then at least one non-whitespace character |
| `TitleLinks.SchemeLength` | src/app/components/Todolist.tsx:24 | a match's scheme is `https://` (8) or `http://` (7) and is followed by a non-whitespace character |
| `TitleLinks.RunEnd` | src/app/components/Todolist.tsx:24 | the end of the greedy `[^\s]+` run lies between its start and the end of the input |
| `TitleLinks.UrlEnd` | src/app/components/Todolist.tsx:24 | a match ends after its start and within the input |
| `TitleLinks.HasUrl` | src/app/components/Todolist.tsx:26 | `part.match(urlRegex)` is truthy iff the pattern matches at some index of the piece |
| `TitleLinks.SplitFrom` | src/app/components/Todolist.tsx:25 | the split loop from a position yields an odd number of pieces |
| `TitleLinks.SplitOnUrls` | src/app/components/Todolist.tsx:25 | `title.split(urlRegex)` yields an odd number of pieces |
| `TitleLinks.Classify` | src/app/components/Todolist.tsx:26-38 | a piece is shown with its own text, as a link or as plain text |
| `TitleLinks.Render` | src/app/components/Todolist.tsx:25-39 | the `.map` yields one segment per piece, in order, each with that piece's text |
| `TitleLinks.RenderTodoTitle` | src/app/components/Todolist.tsx:23-40 | a title renders as an odd number of segments |
| `TitleLinks.NextMatch` | src/app/components/Todolist.tsx:24-25 | the scan for the next match stays in bounds, and stops either at a match or at the end of the title |
| `TitleLinks.NextMatchFirst` | src/app/components/Todolist.tsx:24-25 | no match starts between the scan position and the match the scan finds |
| `TitleLinks.NextMatchUnique` | src/app/components/Todolist.tsx:24-25 | the first match is the only position with no match before it and a match (or the end) at it |
| `TitleLinks.RunEndSpec` | src/app/components/Todolist.tsx:24 | the greedy `[^\s]+` run holds no whitespace and is followed by whitespace or the end |
| `TitleLinks.UrlEndSpec` | src/app/components/Todolist.tsx:24 | a match runs past its scheme, holds no whitespace, and is followed by whitespace or the end |
| `TitleLinks.MatchIsToken` | src/app/components/Todolist.tsx:24-26 | the text of every match is a well-formed link token, and `match` finds the pattern in it |
| `TitleLinks.SplitFromJoin` | src/app/components/Todolist.tsx:25 | the pieces of the split concatenate back to the scanned input |
| `TitleLinks.SplitFromShape` | src/app/components/Todolist.tsx:25 | the split alternates URL-free text and link tokens; it starts and ends with text; each text after a link is the empty last piece or starts with whitespace |
| `TitleLinks.ShownClassified` | src/app/components/Todolist.tsx:25-39 | classifying the pieces keeps their text, in order |
| `TitleLinks.RoundTrip` | src/app/components/Todolist.tsx:24-39 | the rendered segments, concatenated, give back the title exactly |
| `TitleLinks.EmptyTitle` | src/app/components/Todolist.tsx:24-25 | an empty title renders as one empty Text segment |
| `TitleLinks.Alternation` | src/app/components/Todolist.tsx:24-26 | there is an odd number of segments; a segment is a Link iff its index is odd; the pattern matches nowhere inside a Text taken on its own; every Link starts with `http://` or `https://`, has a character after the scheme, and holds no whitespace |
| `TitleLinks.NoUrlSingleText` | src/app/components/Todolist.tsx:24-26 | the title renders as the single segment `Text(title)` iff the pattern matches nowhere in it |
| `TitleLinks.LinksAreMaximal` | src/app/components/Todolist.tsx:24 | every Link is followed by the empty last Text or by a Text that starts with whitespace |
| `TitleLinks.BareSchemeIsText` | src/app/components/Todolist.tsx:24-26 | `"go http:// now"`, a scheme followed by a space, renders as one Text |
| `TitleLinks.SplitPiece` | src/app/components/Todolist.tsx:24-25 | in the split from any position, no match starts inside a piece at an even index, and a piece at an odd index is exactly the match that starts where it starts |
| `TitleLinks.LeftmostGreedy` | src/app/components/Todolist.tsx:24-26 | each segment starts at the length of the text shown before it; a Link is exactly the greedy match that starts there, and no match starts at any position a Text covers, so the Links are the leftmost matches in order |
| `TitleLinks.TokenMatch` | src/app/components/Todolist.tsx:24 | a link token is matched whole from its first character |
| `TitleLinks.WholeTitleLink` | src/app/components/Todolist.tsx:24-26 | a title that is one link token renders as an empty Text, that Link and an empty Text |

## Left out

- The mount-time loader (the `useEffect` at lines 44-49) is not modelled.
  It depends on React effect scheduling, on `localStorage.getItem` and on
  `JSON.parse`, which are browser I/O and a foreign parser. The constructor
  of `TodoList` takes the list and the storage slot as they are.
- `JSON.stringify` (line 58) is abstracted. The storage slot holds the list
  itself, not its text.
- The JSX is not modelled: the cards, the checkbox, the line-through span,
  the `key` props, CSS classes and the anchor attributes `href`, `target`
  and `rel` (lines 13-21 and 26-38, 62-100). The empty-state branch
  (lines 62-64) is only a null/length test, and is also left out.
- The sibling components `CreateTodo`, `UpdateTodo` and `DeleteTodo`, and
  the Prisma `Todo` type, are not part of this model. The record keeps only
  the three fields the component reads.
- React's batching of `setTodos` is not modelled. The held list is assigned
  at once. A failure between the state update and the storage write is
  also not modelled.
- The `limit` argument of `split` is not modelled. It is 2^32 - 1 when
  omitted, and a title never produces that many pieces.
- UTF-16 surrogate pairs are not modelled. Strings are sequences of code
  points.
