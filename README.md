# Slide tournament: a verified model of the session store

The application takes a PDF of 2 to 20 pages and renders each page to an
image. It then runs a pairwise tournament over the pages.

Each upload gets a fresh session token. The in-memory `sessions` dictionary
binds that token to a record of two parts:

- `slides`: the list of page indices still in play, shuffled.
- `slide_images`: the image path of every page, in page order.

The pick page offers the first two slides in play. Each one is a submit
button that posts its own index as `winner`. `choose` removes the posted
value from the list and reshuffles what is left. Once one slide remains,
pick redirects to the result page, which shows that slide as number
`index + 1`.

The model has four modules:

- `Decimal` (decimal.dfy): the decimal spelling of a page index used in image
  file names, with its parse-back round trip.
- `PyList` (pylist.dfy): the two Python list operations the store relies on.
  `list.remove` drops the first occurrence and raises ValueError when the
  value is missing. `random.shuffle` is modelled as a permutation driven by a
  sequence of random draws.
- `Tournament` (tournament.dfy): one session record as a value. It defines
  the invariant every stored record keeps, the record an accepted upload
  creates, the effect of a choice, the pick and result views, and the
  properties of whole tournaments.
- `App` (store.dfy): the store as a class whose `sessions` map the handlers
  update. It has one method per handler, plus the loop that builds the image
  paths.

Python exceptions are values of `Response<T>`: `Raised(KeyError)` for an
unknown token, `Raised(ValueError)` for a value not in play, and
`Raised(IndexError)` for indexing an empty list. No handler has a
precondition beyond the store invariant.

The code removes the slide the user clicked. The form field that carries
the clicked slide is named `winner` (app.py:143, app.py:147, app.py:161), and
the result page reads "You picked slide number" (app.py:181). Both suggest
the clicked slide was meant to stay in play. The model follows the code as
written: `choose` removes the posted value, so the slide that survives n − 1
choices is the one page never submitted.

## Model

| member | source | states |
|---|---|---|
| Decimal.DecimalString | app.py:64 | the index in a file name is a non-empty string of digits with no leading zero |
| Decimal.ParseDecimalString | app.py:64 | reading the spelled index back as a number gives the index |
| Decimal.DecimalStringInjective | app.py:64 | different indices are spelled differently |
| PyList.FirstIndex | app.py:163 | the position `list.remove` acts on holds the value, and no earlier position does |
| PyList.RemoveFirst | app.py:163 | `list.remove` deletes the first occurrence only: the rest keep their order, the length drops by one, and exactly one copy of the value leaves the multiset |
| PyList.Shuffled | app.py:70 | a shuffle keeps the length and the multiset of elements |
| PyList.ShuffledFirstDraw | app.py:70 | a first draw below the list length brings the element at that position to the front |
| PyList.ShuffledByPermutationDraws | app.py:70 | for every permutation r of a list there are explicit draws whose shuffle is r |
| PyList.ShuffleReachesEveryPermutation | app.py:70 | every permutation of the list is the result of some draws, so the model excludes no ordering |
| PyList.NoDuplicatesCount | app.py:69 | a duplicate-free list holds each value at most once |
| PyList.PermutationKeepsNoDuplicates | app.py:165 | reordering a duplicate-free list keeps it duplicate-free |
| PyList.RemoveFirstOfNoDuplicates | app.py:163 | removing a value from a duplicate-free list removes every copy of it, keeps every other value, and leaves the list duplicate-free |
| Tournament.SlidePathInjective | app.py:64 | two pages of one session never share an image path |
| Tournament.SlidePaths | app.py:61-64 | n image paths, and entry i is the path of page i in the token's folder |
| Tournament.Range | app.py:69 | `list(range(n))` holds 0..n-1 in order, and nothing else |
| Tournament.ReorderedWellFormed | app.py:70 | a shuffle keeps the record invariant and the set of slides in play |
| Tournament.RemovedWellFormed | app.py:163 | `remove` keeps the record invariant and takes out exactly the submitted value |
| Tournament.NewSession | app.py:69-75 | the stored record holds each page index exactly once, in some order, and page i's image path at position i |
| Tournament.UploadedDeckIsReachable | app.py:69-70 | every ordering of the pages is a record some upload stores |
| Tournament.ChooseStep | app.py:162-165 | a choice succeeds exactly when the value is in play (ValueError otherwise); it removes one copy of that value, shortens the list by one and leaves the images alone |
| Tournament.ChooseKeepsWellFormed | app.py:162-165 | a successful choice keeps the record invariant and takes exactly the submitted slide out of play |
| Tournament.PickView | app.py:84-148 | redirect to the result exactly when one slide is left; IndexError exactly when none is; otherwise the first two slides, which differ, each with its displayed number index + 1 and its own image |
| Tournament.ResultView | app.py:173-181 | IndexError exactly when no slide is left; otherwise the first slide in play, whatever the number left, with in-range image and shown as number slide + 1 |
| Tournament.ClickedSlideIsEliminated | app.py:143-163 | the clicked button's slide leaves play and the other offered slide stays |
| Tournament.PlayRemovesWinners | app.py:160-165 | a run of choices of distinct values in play all succeed; the slides left are exactly those never submitted, and the length drops by one per round |
| Tournament.PlayOkMeansValidChoices | app.py:160-165 | a run of choices none of which raised submitted distinct values, each in play at the start |
| Tournament.AnyValidRunLeavesSoleSurvivor | app.py:160-181 | every run of n - 1 choices on an accepted n-page deck that raises nothing leaves exactly the page never submitted; pick redirects and result shows it |
| Tournament.SoleSurvivor | app.py:160-181 | after n - 1 distinct valid choices on an accepted n-page deck, exactly one slide is left, namely the page never submitted; pick redirects and result shows it with its number and its own image |
| Tournament.FinalViews | app.py:87-88 | with one slide left, pick redirects and result shows that slide, its number and its image path |
| Tournament.ResultAfterExactlyNMinusOneChoices | app.py:87-90 | pick offers a pair while fewer than n - 1 choices were made and redirects to the result exactly after n - 1 |
| Tournament.SurvivorIgnoresShuffles | app.py:163-165 | the same n - 1 submitted values end in the same record whatever the upload order and the shuffles in between |
| Tournament.ChoosingTheLastSlide | app.py:160-174 | submitting the last slide still succeeds and empties the list, after which pick and result both raise IndexError |
| App.BuildSlidePaths | app.py:61-64 | the upload loop builds one path per page, entry i naming page i's image |
| App.StoredViewsUseOwnImages | app.py:84-91 | the pages served for a stored record only show images from its own token's folder |
| App.SessionStore.constructor | app.py:22 | the store starts empty and satisfies its invariant |
| App.SessionStore.UploadPdf | app.py:50-77 | a page count outside 2..20 is refused with the store unchanged; otherwise the token is bound to the new record, and every other entry is kept |
| App.SessionStore.Pick | app.py:83-91 | KeyError for an unknown token, otherwise the pick view of the stored record |
| App.SessionStore.Choose | app.py:161-166 | KeyError or ValueError leave the store unchanged; otherwise only this token's record changes, by one choice step, and the store invariant holds |
| App.SessionStore.Result | app.py:172-174 | KeyError for an unknown token, otherwise the result view of the stored record |

## Left out

- PDF rendering and image files: `convert_from_bytes`, the folder creation and `img.save` are outside the model. The upload is given as its page count.
- Token generation: `uuid.uuid4()` is a parameter of `UploadPdf`. A token that collides with a stored one replaces that record, as the dictionary assignment does.
- Randomness: `random.shuffle` takes its random draws as a parameter. `PyList.ShuffleReachesEveryPermutation` shows that no ordering is out of reach. The probability distribution is not modelled.
- HTML rendering, routing, form parsing and the static file mount: the model covers the handlers' effects and the values their pages display (slide indices, displayed numbers, image paths), not the markup or its other text. A `winner` form field that is not an integer is rejected before the handler runs, so it is not modelled.
- Rejected uploads: their images are written to disk before the page-count check, and they stay there. The model has no file system.
- Concurrency between requests: each handler is modelled as one atomic step on the store.
- The store growing without bound: nothing removes a session, and the model keeps every one too.
- App.SessionStore.Choose: in the code, `slides` is the stored list object itself and is changed in place. The model writes the new record back into the map instead. The two agree because nothing else holds a reference to that list; aliasing is not modelled.
