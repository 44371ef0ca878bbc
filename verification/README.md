# A verified model of a minimal todo app: page state and the create endpoint

The application is a Next.js todo list. This project models its two pieces of
behaviour in Dafny:

- **The client page** (`src/app/page.tsx`). The page keeps its list purely in
  local React state. Here that state is one immutable record `Page.State`
  holding `todos` and `input`. Each handler is a pure transition on it:
  - `handleAddTodo` is `Page.AddTodo`;
  - `handleKeyDown` is `Page.KeyDown`;
  - `handleDeleteTodo` is `Page.DeleteTodo`;
  - the input box's `onChange` is `Page.SetInput`.

  `Date.now()` becomes the `now` parameter. `Page.Run` folds a sequence of user
  events over the state.
- **The create endpoint** (`POST` in `src/app/api/todos/route.ts`). It is modelled
  as the total function `CreateTodo.Post`. The inputs are the outcome of
  `request.json()` and the store's reply. The output is the status, the response
  body, and the insert payload if the handler issued one. The store is an
  oracle: the inserted row, an error with a message, or a thrown exception.
  JavaScript's reading of `body.title` and its truthiness test are spelled out
  in `Json`. The `is_done = false` default, the 400/500/201 mapping and the
  `catch` are spelled out in `CreateTodo`.
- **String trimming.** Both pieces rely on `String.prototype.trim`.
  `JsString.Trim` models it over the WhiteSpace and LineTerminator code points
  of ECMA-262 (sections 12.2 and 12.3). Its lemmas show that it is idempotent,
  that it leaves no whitespace at either end, and that it removes nothing but
  edge whitespace.

The page keeps a local list of `{id: number, text}` items. It never calls the
API, has no toggle and no loading flag, and the model follows that code. Its
`Page.Todo` is the page's own item type, not the row type of
`src/types/todo.ts`. That row type is used only to shape `CreateTodo.TodoRow`.

Files: `Optional.dfy`, `JsString.dfy`, `Page.dfy`, `Json.dfy`, `CreateTodo.dfy`.

## Model

| member | source | states |
|---|---|---|
| JsString.LeadingWhitespace | src/app/page.tsx:17 | the count covers only whitespace characters and stops at the first non-whitespace character |
| JsString.TrailingWhitespace | src/app/page.tsx:17 | the count covers only whitespace characters at the end and stops at the last non-whitespace character |
| JsString.Trim | src/app/api/todos/route.ts:10 | the trimmed string has no whitespace at either end and is no longer than the input |
| JsString.TrimKeepsMiddle | src/app/api/todos/route.ts:19 | trimming yields a contiguous slice of the input with only whitespace on either side of it |
| JsString.TrimOfFramed | src/app/page.tsx:21 | for any split of a string into whitespace, a middle without edge whitespace, and whitespace, the trim is that middle (uniqueness) |
| JsString.TrimIdempotent | src/app/page.tsx:21 | trimming an already trimmed string changes nothing |
| JsString.TrimFixedPoints | src/app/page.tsx:21 | a string equals its own trim if and only if it has no whitespace at either end |
| JsString.TrimEmptyIffBlank | src/app/api/todos/route.ts:10 | a string trims to "" if and only if every character is whitespace |
| Page.Initial | src/app/page.tsx:13-14 | no contract; the state both `useState` calls start from, an empty list and an empty input (its invariant is stated by `Page.InitialWellFormed`) |
| Page.SetInput | src/app/page.tsx:51 | typing replaces the input with the typed value and leaves the list unchanged |
| Page.AddTodo | src/app/page.tsx:16-26 | blank input leaves the whole state unchanged; otherwise the list grows by exactly one, the old list is an unchanged prefix, the new last item has the clock reading as id and the trimmed input as text, and the input is cleared |
| Page.AddedTextIsValid | src/app/page.tsx:17-21 | the text of an added item is non-empty and has no edge whitespace |
| Page.ValidTextIsTrimmed | src/app/page.tsx:21 | the item-text invariant holds exactly of non-empty strings equal to their own trim |
| Page.KeyDown | src/app/page.tsx:28-32 | any key other than Enter leaves the state unchanged |
| Page.KeyDownRoutesEnter | src/app/page.tsx:28-32 | Enter behaves exactly like the add button, and a key press changes the state only if it is Enter and the input is not blank |
| Page.WithoutId | src/app/page.tsx:35 | no surviving item carries the deleted id, and the list shrinks by exactly the number of items that carried it |
| Page.WithoutIdContents | src/app/page.tsx:35 | as multisets, every item with a different id survives with its multiplicity and every item with the id is gone |
| Page.WithoutIdIsSubsequence | src/app/page.tsx:35 | the surviving items keep their original relative order |
| Page.WithoutIdUnchangedIffAbsent | src/app/page.tsx:35 | filtering leaves the list unchanged if and only if no item carries the id |
| Page.WithoutIdIdempotent | src/app/page.tsx:35 | filtering by the same id twice equals filtering once |
| Page.DeleteTodo | src/app/page.tsx:34-36 | deleting keeps the input text, leaves no item with that id, shrinks the list by exactly the number of matching items, keeps every other item with its multiplicity, and keeps the survivors in their original order |
| Page.DeleteAbsentIsNoOp | src/app/page.tsx:34-36 | deleting an id that no item carries leaves the state unchanged |
| Page.DeleteIdempotent | src/app/page.tsx:34-36 | deleting the same id twice gives the same state as deleting it once |
| Page.DeleteUndoesAdd | src/app/page.tsx:19-35 | if the clock reading was not already used as an id, deleting it right after a non-blank add restores the previous list |
| Page.InitialWellFormed | src/app/page.tsx:13-14 | the first-render state satisfies the item-text invariant |
| Page.AddPreservesWellFormed | src/app/page.tsx:16-26 | add preserves the invariant that every item's text is non-empty and trimmed |
| Page.DeletePreservesWellFormed | src/app/page.tsx:34-36 | delete preserves the item-text invariant |
| Page.KeyDownPreservesWellFormed | src/app/page.tsx:28-32 | a key press preserves the item-text invariant |
| Page.Step | src/app/page.tsx:51-80 | each wired event goes to its handler; typing never changes the list, a delete click never changes the input, and no event adds more than one item |
| Page.Run | src/app/page.tsx:51-80 | handling a sequence of events grows the list by at most one item per event |
| Page.RunConcat | src/app/page.tsx:51-80 | handling two batches of events in turn equals handling their concatenation |
| Page.StepPreservesWellFormed | src/app/page.tsx:16-51 | each user event (typing, add click, key press, delete click) preserves the item-text invariant |
| Page.RunPreservesWellFormed | src/app/page.tsx:16-51 | any sequence of user events preserves the item-text invariant |
| Page.ReachableWellFormed | src/app/page.tsx:13-51 | every state reachable from the first render has only non-empty, trimmed item texts |
| Json.ReadTitle | src/app/api/todos/route.ts:10 | reading `title` throws exactly on a null body, and yields a value exactly when the body is an object with that key |
| Json.Truthy | src/app/api/todos/route.ts:10 | JavaScript ToBoolean on a property read, by cases; a value is falsy exactly when it is `undefined`, `null`, `false`, `0` or `""` |
| CreateTodo.Post | src/app/api/todos/route.ts:6-34 | status is 201, 400 or 500; an insert is issued if and only if the title is a string with a non-whitespace character; the payload is the trimmed title with `is_done` false, non-empty and trimmed; 201 carries the store's row exactly when the store returned one; 500 carries the store's message exactly when it reported an error; every 400 carries one of the two fixed messages |
| CreateTodo.PostTitleRequired | src/app/api/todos/route.ts:10-15 | the 400 "title is required" response with no insert happens if and only if the body parsed, is not null, and its title is missing, falsy, or whitespace only |
| CreateTodo.PostInvalidBody | src/app/api/todos/route.ts:6-33 | the 400 "Invalid request body" response with no insert happens if and only if the body does not parse, is null, or has a truthy title that is not a string |
| CreateTodo.PostValidTitle | src/app/api/todos/route.ts:17-27 | a valid title issues the insert of the trimmed title, not done; a stored row gives 201 with the row, a store error gives 500 with its message, and a throw gives 400 "Invalid request body" |
| CreateTodo.RequestCasesPartition | src/app/api/todos/route.ts:8-19 | every request is in exactly one case: unreadable body, missing or blank title, non-string truthy title, or valid title |
| CreateTodo.PostTrimsPaddedTitle | src/app/api/todos/route.ts:19 | a title made of whitespace, a text without edge whitespace, and whitespace inserts exactly that text |
| CreateTodo.PostTrimsTitleExample | src/app/api/todos/route.ts:19 | the body `{"title": "  buy milk  "}` inserts "buy milk" with `is_done` false |

## Left out

- `GET` in `src/app/api/todos/route.ts`: it only forwards a query to the store. The store does the ordering by `created_at`, so there is no local logic to state.
- The handlers in `src/app/api/todos/[id]/route.ts` (rename, delete) and `src/app/api/todos/[id]/toggle/route.ts` (toggle) are not part of this model. The page never calls them.
- The store client and the real insert, select and single call chain are not modelled. The store's reply is an input to `CreateTodo.Post` and does not depend on the payload. Its reply to the `{data, error}` pair is reduced to a row, an error message, or a throw.
- JSON parsing itself is not modelled. `request.json()` is either a parse failure or a parsed JSON value. JSON numbers are reals, because only whether they are zero matters.
- Exceptions raised by the response construction (`NextResponse.json`) inside the `try` are not modelled.
- React rendering, JSX, styling and the `useState` mechanics are not modelled. Handlers are synchronous transitions on an explicit state record. The stale-closure detail does not matter because every handler reads the state of the current render.
- `Date.now()` is the `now` parameter. Nothing assumes it is unique or increasing, so two adds with the same reading produce two items with the same id.
- JavaScript strings are UTF-16 code units, while Dafny's `char` is a Unicode scalar value. Every code point that `trim` strips is in the Basic Multilingual Plane, so trimming agrees on every string both can represent. Lone surrogates are not representable here.
- JsString.IsWhitespace: the space separators are the ones Unicode 15 assigns to category Zs. A JavaScript engine built on a different Unicode version could strip a different set.
