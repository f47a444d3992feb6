# Book catalog state machine

A Dafny model of the in-memory book catalog in `js/script.js`. The script
keeps a list of books (`livros`, records `{id, name, tipo, ano}`), an id
counter (`idGlobal`), an edit-mode flag (`modoEdicaoAtivo`), the id of the
selected book (`livroSelecionadoId`) and a hidden form field (`hiddenId`)
that decides whether a form submission creates a book or updates one.
Browser events drive it: toggling edit mode, clicking a table row, loading
the selected book into the form, deleting the selected book, submitting the
form and cancelling an edit.

The model is one class, `Livraria.Catalogo`, whose fields are those five
globals and whose methods are the event handlers. Each method states its
whole new state in terms of the old one. Each method also keeps the object
invariant `Valid()`:

- the counter is positive;
- ids are unique, positive and below the counter, so they are never reused,
  even after deletes (with unbounded integers; see "## Left out" for the
  2^53 limit of JavaScript numbers);
- a selection exists only in edit mode;
- a selection always names a book in the list.

The array lookups `find`, `findIndex` and `filter` are pure functions
(`Find`, `FindIndex`, `RemoveId`). Lemmas pin down what filtering means:

- with unique ids, filtering removes exactly one book;
- the remaining books keep their order;
- an absent id changes nothing.

Module `Cenarios` states concrete runs from the seeded start-up state.

Inputs the browser supplies are parameters:

- the trimmed name and tipo are strings;
- the parsed year is an `Option<int>`, where `None` stands for `NaN`;
- a row click names the index of the clicked row in the list.

The hidden field is an `Option<int>`, where `None` stands for the empty
string. JavaScript truthiness is written out. A year of `NaN` or 0 rejects
the submission. A target id of `NaN` or 0 means "create". Any other target
id means "update". When no book has that id, the submission is dropped
silently and no book is created. The code rejects a year of 0 as well as a
non-numeric one, and the model follows the code.

The seed block runs once at page load, before any event can select a book.
So `Semear` requires that nothing is selected. Otherwise its fresh list
could leave a selection pointing at no book.

## Model

| member | source | states |
|---|---|---|
| `Livraria.FindIndex` | js/script.js:123 | returns -1 exactly when no book has the id; otherwise an in-range index whose book has the id, with no earlier book having it |
| `Livraria.Find` | js/script.js:85 | finds a book exactly when some book has the id; the book found is in the list and carries that id |
| `Livraria.RemoveId` | js/script.js:102 | no book of the result carries the filtered id, and the result is no longer than the list |
| `Livraria.RemoveIdMembers` | js/script.js:102 | a book is in the filtered list exactly when it is in the list and its id differs from the filtered id |
| `Livraria.RemoveIdKeepsIds` | js/script.js:102 | filtering keeps the ids unique, positive and below the counter |
| `Livraria.RemoveIdAbsent` | js/script.js:102 | filtering out an id that no book carries returns the list unchanged |
| `Livraria.RemoveIdAt` | js/script.js:102 | with unique ids, filtering out the id of the book at index i yields the list without index i, all other books in their original order |
| `Livraria.Catalogo.constructor` | js/script.js:1-9 | initial state declared by the script: empty list, counter 1, edit mode off, no selection; the target field is assumed empty (see "## Left out"); the invariant holds |
| `Livraria.Catalogo.BotoesHabilitados` | js/script.js:57-61 | edit/delete are enabled exactly when a book is selected, and then edit mode is on and the selected id is found in the list |
| `Livraria.Catalogo.Semear` | js/script.js:158-161 | the list becomes the two seed books with ids counter and counter+1, in that order; the counter advances by 2; the invariant holds |
| `Livraria.Catalogo.AlternarModoEdicao` | js/script.js:64-79 | edit mode flips; leaving it clears the selection, so no selection remains in either direction; list, counter and target field unchanged |
| `Livraria.Catalogo.ClicarLinha` | js/script.js:37-48 | outside edit mode nothing changes; in edit mode clicking the selected row deselects it and clicking another row selects that book; nothing else changes |
| `Livraria.Catalogo.EditarSelecionado` | js/script.js:82-95 | without a selection nothing changes and no book is loaded; with one, the selected book (present in the list) is returned for the form and its id is put in the target field; nothing else changes |
| `Livraria.Catalogo.ExcluirSelecionado` | js/script.js:98-107 | without a selection nothing changes and no message fires; with one, exactly the selected book is removed, the others keep their order, no book with that id remains, the selection is cleared and the delete message fires; counter, mode and target field unchanged |
| `Livraria.Catalogo.Enviar` | js/script.js:110-139 | invalid input (empty name or tipo, year NaN or 0) changes nothing and fires nothing; with no or a falsy target id one book with id = old counter is appended, the counter grows by exactly 1 and the add message fires; with a target id found at index k that book is replaced in place with the same id, counter unchanged, edit message fires; with a target id found nowhere the list and counter are unchanged and no message fires; after any valid submission the target field is cleared; mode and selection unchanged; the invariant holds |
| `Livraria.Catalogo.CancelarEdicao` | js/script.js:142-146 | clears the target field and changes nothing else |
| `Cenarios.Inicio` | js/script.js:158-161 | after start-up the list is Dom Casmurro (id 1) then O Cortiço (id 2), the counter is 3, edit mode is off, nothing is selected |
| `Cenarios.CriarAposInicio` | js/script.js:128-132 | submitting Iracema after start-up appends it as id 3, the counter becomes 4 and the add message fires |
| `Cenarios.NomeVazioRejeitado` | js/script.js:113-119 | submitting an empty name after start-up leaves both books and counter 3, with no message |
| `Cenarios.ExcluirPrimeiro` | js/script.js:98-107 | entering edit mode, clicking the first row and deleting leaves only book 2, no selection, edit mode on, and fires the delete message |
| `Cenarios.EnvioComAlvoExcluido` | js/script.js:121-127 | loading book 1 into the form, deleting it and then submitting leaves only book 2 and counter 3; no message fires, no book is created and the target field is cleared |

## Left out

- DOM lookups, table building with `innerHTML`, `addEventListener` wiring, button text and `style.display` changes (js/script.js:12-34, 50, 66, 74-76, 94, 137, 145): view plumbing. Only the boolean "edit/delete enabled" value of `atualizarBotoesAcao` is kept, as `BotoesHabilitados`.
- `renderizarLivros` and the re-render after each event: rendering has no state of its own. A row click is modelled by the index of a row in the current list, because every state change re-renders the rows.
- The timer in `mostrarMensagem` (js/script.js:149-155): the model returns which of the three messages fires, or `None`.
- Full `parseInt` and `trim` semantics (js/script.js:113-116), for example prefix parsing of "1899abc": name and tipo arrive already trimmed, and the year arrives already parsed.
- The form's name, tipo and year fields, and `form.reset()`: `EditarSelecionado` returns the book whose fields the form would show, and the form's contents are otherwise not state of the model.
- Edits a user makes to the hidden field by hand: the field is changed only by the handlers, though `Enviar` handles any value it may hold, including 0 and ids of deleted books.
- Livraria.Catalogo.Enviar: ids and `idGlobal` are JavaScript numbers (doubles), exact only up to 2^53. At that point `idGlobal++` (js/script.js:130) stops changing the counter, so two later creates would share an id. The model uses unbounded integers and so assumes fewer than 2^53 creates; `IdsUnique` and `IdsBelow` hold only under that assumption.
- Livraria.Catalogo.constructor: the starting value of the page's `#hiddenId` input comes from the HTML page, which is not part of this model (js/script.js:19 only looks the element up). The model assumes it starts empty. `Cenarios.Inicio` and the create branch in `Cenarios.CriarAposInicio` rely on that.
- Browser event-loop ordering: handlers run one at a time, to completion.
