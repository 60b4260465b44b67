# cpm2014 translations, modelled in Dafny

This project models the translation subsystem of the cpm2014 film-festival
application (`apps/cpm2014`). It covers five parts:

- **The translation records.** A film `Submission` gets per-language
  `SubmissionTranslation` rows holding a translated title, genre, synopsis,
  short synopsis and director. Programs get `ProgramTranslation` rows. The
  `SubmissionScreening` link table joins submissions to programs. Each table
  carries its `unique_together` constraint.
- **The two `translation` lookups.** `Submission.translation` takes the first
  row of the submission in the current language. `Program.translation` gets
  the row for the program and current language, and answers None when there
  is none. Both are cached on the instance.
- **The rules-page language resolver** (`Rules.translation`).
- **The staff views.** These are the side-by-side comparison
  (`translation_details`), the edit form (`translation_edit`) and the bulk
  JSON export (`translations_all_json`).
- **The SubmissionTranslation table as those views use it.** Its operations
  are `get_or_create`, the form save and the listing of all rows.

Files:

- `base.dfy`: the `Option` type.
- `models.dfy` (module `Models`):
  - the records and their constraints;
  - the two lookups;
  - the map view of the translation table, `AsMap`;
  - the cached-property instances, as classes with a `cache` field.
- `store.dfy` (module `Store`): the translation table as a class whose `rows`
  field the methods reassign.
  - Its invariant `Valid()` is the unique pair, the foreign key and the
    language choices.
  - Its ghost view `Table()` maps each (submission, language) pair to the
    five fields.
- `rules.dfy` (module `Rules`): the language resolver.
- `views.dfy` (module `Views`): the three views and the export.
  - The export fold is a `while` loop.
  - It is proved equal to `ExportOf`, a pair-by-pair definition of the
    export whose exactness is proved separately.

Modelling choices:

- **A table is a sequence of rows in table order.** A `unique_together`
  constraint is a predicate on that sequence. The order matters because
  `Submission.translation` takes the first match. Under the constraint, the
  order provably makes no difference.
- **What a view returns is a `Response` value.** A page is shown as the data
  handed to its template, and a redirect or a JSON body as what it carries.
- **`staff_member_required` is an `isStaff` flag.**
- **`get_object_or_404` is the `NotFound` response.**
- **The route admits only translation languages.** The URL patterns in
  `apps/cpm2014/__init__.py` admit only the codes of `TRANSLATION_LANGUAGES`
  as `lang`, so the views require `lang in store.languages`. Nothing in the
  code raises an unsupported-language error. A request with another code
  never reaches the view.
- **The form is a parameter.** `SubmissionTranslationForm` is not part of
  this model. Its cleaned data is a `Patch`: `Some` for each field the form
  carries and `None` for one it does not. Its `is_valid()` is a parameter
  `valid`. A request without form data is `post == None`: the form is then
  unbound and never valid.
- **`get_or_create` runs on every edit.** In `translation_edit` it runs before
  the form is checked. A request with an invalid form therefore still creates
  the empty row, and the contract of `Views.TranslationEdit` states this.

## Model

| member | source | states |
|---|---|---|
| Models.SamePairSameRow | apps/cpm2014/models.py:200-201 | under the unique (submission, language) constraint, two rows with the same pair are the same row |
| Models.AppendNewPair | apps/cpm2014/models.py:200-201 | inserting a row whose pair is not yet stored keeps the constraint |
| Models.KeyCount | apps/cpm2014/models.py:200-201 | the number of rows carrying a pair is at most the table size, and is zero exactly when no row carries the pair |
| Models.KeyCountIsCount | apps/cpm2014/models.py:200-201 | the count of a pair is the number of table positions whose row carries it |
| Models.NewTranslation | apps/cpm2014/models.py:191-198 | the row inserted for a new pair carries that pair and every field at its default, the empty string |
| Models.AtMostOneRowPerPair | apps/cpm2014/models.py:200-201 | under the constraint at most one row carries any (submission, language) pair |
| Models.TranslationSet | apps/cpm2014/models.py:160 | `submissiontranslation_set.all()` holds exactly the rows of the submission |
| Models.FirstInLanguage | apps/cpm2014/models.py:158-164 | `next(...)` is None exactly when no row has the language; otherwise it is a row in that language with no earlier row in it |
| Models.TranslationOf | apps/cpm2014/models.py:153-164 | `Submission.translation` is a stored row of that submission in the current language, and None exactly when there is none |
| Models.TranslationIsUnique | apps/cpm2014/models.py:153-164 | under the constraint, whichever row carries the pair is the one returned |
| Models.TranslationOrderIrrelevant | apps/cpm2014/models.py:158-164 | under the constraint, any reordering of the table (same multiset of rows) gives the same translation |
| Models.AsMapKeys | apps/cpm2014/models.py:187-201 | the map view of the table holds exactly the table's pairs |
| Models.AsMapAt | apps/cpm2014/models.py:187-201 | under the constraint every row is found in the map view under its own pair, with its own fields |
| Models.TranslationFromMap | apps/cpm2014/models.py:153-164 | under the constraint `Submission.translation` depends on the map view alone: the stored fields of the pair, or None |
| Models.ReplaceRow | apps/cpm2014/views.py:257 | an UPDATE replaces every row carrying the pair and keeps every other row and the table size |
| Models.AsMapReplace | apps/cpm2014/views.py:257 | updating a stored pair changes the map view at that pair only |
| Models.ReplaceRowAbsent | apps/cpm2014/views.py:257 | updating a pair with no row changes nothing |
| Models.ReplaceRowKeepsPairs | apps/cpm2014/models.py:200-201 | an update keeps every row's pair and so keeps the constraint; each row afterwards is the new row or an old one |
| Models.ProgramMatches | apps/cpm2014/models.py:215-217 | the rows the query selects are exactly those of the program in the language |
| Models.AtMostOneProgramTranslation | apps/cpm2014/models.py:229-230 | under unique (language, program) the query selects at most one row |
| Models.ProgramTranslationOf | apps/cpm2014/models.py:212-219 | `Program.translation` is None exactly when no row matches (DoesNotExist), and otherwise the one matching row |
| Models.InsertScreening | apps/cpm2014/models.py:238-239 | a second screening for a (submission, program) pair is refused; any other insert appends the row and keeps the constraint |
| Models.SubmissionInstance.Translation | apps/cpm2014/models.py:153-164 | the cached property computes the lookup on first access, returns the cached value unchanged afterwards, and any value is a row of this submission |
| Models.ProgramInstance.Translation | apps/cpm2014/models.py:212-219 | the same caching for `Program.translation`; any value is a row of this program |
| Store.Apply | apps/cpm2014/views.py:256-257 | after a save each field holds the form's value where the form carries it and the stored value elsewhere |
| Store.ApplyProperties | apps/cpm2014/views.py:256-257 | saving the same form twice stores what saving it once stores; a form carrying every field stores its values whatever was stored before |
| Store.TranslationStore.GetOrCreate | apps/cpm2014/views.py:230-232 | afterwards exactly one row carries the pair, and it is the row returned; an existing row is returned and nothing is written; otherwise one row with empty fields is appended and `created` is set; the map view changes at that pair only; the constraints still hold |
| Store.TranslationStore.Update | apps/cpm2014/views.py:256-257 | the form's fields overwrite the stored ones of the pair and nothing else changes; with no row for the pair nothing is written |
| Store.TranslationStore.ListAll | apps/cpm2014/views.py:274 | `objects.all()` yields every stored row and no other, with unique pairs, the same map view and language codes of at most two characters |
| Rules.Lower | apps/cpm2014/views.py:70 | `lang.lower()` keeps the length, turns each upper-case letter into its lower-case form and keeps every other character |
| Rules.JoinProperties | apps/cpm2014/views.py:74 | `os.path.join` with a relative second part keeps the first part as a prefix and the second as a suffix, with one separator between them when needed; an absolute second part replaces the first |
| Rules.DocsDirShape | apps/cpm2014/views.py:63 | `Rules.PATH` is the application root followed by a separator and `docs` (just `docs` for an empty root) |
| Rules.Translation | apps/cpm2014/views.py:65-77 | the resolved language always has a rules document and is lower case; the path is that document under the `docs` directory; the right-to-left flag is never set |
| Rules.NoneUsesCurrentLanguage | apps/cpm2014/views.py:67-68 | without a requested code the current language is resolved |
| Rules.LowerIdempotent | apps/cpm2014/views.py:70 | lower-casing twice is lower-casing once, and the result has no upper-case letter |
| Rules.CaseInsensitive | apps/cpm2014/views.py:70-72 | a code and its lower-case form resolve alike |
| Rules.LowerIsPair | apps/cpm2014/views.py:70 | a code lower-cases to a given two-letter word exactly when it has two characters, each that letter in either case |
| Rules.ResolvedLanguage | apps/cpm2014/views.py:54-72 | a code resolves to Russian exactly for the spellings of `ru`, to Belarusian exactly for those of `be`, and to English for every other code |
| Rules.BelarusianSharesRussianRules | apps/cpm2014/views.py:55-58 | Belarusian and Russian resolve to the same rules document |
| Rules.ResolutionExamples | apps/cpm2014/views.py:66-77 | `RU` resolves to Russian, an unknown code to English, and no code under a Russian interface to Russian |
| Views.ComparisonTable | apps/cpm2014/views.py:234-240 | five rows in the fixed label order, with originals from the submission (genre may be null, the short synopsis is empty); the translation is recovered whole from the translated column |
| Views.TranslationDetails | apps/cpm2014/views.py:227-243 | non-staff callers get a login redirect and an unknown submission gets not found, neither with a write; otherwise the pair's row is fetched or created and shown beside the original |
| Views.TranslationEdit | apps/cpm2014/views.py:246-267 | the row is fetched or created first; a valid form is saved over it and the caller is redirected to the details of the same pair; otherwise only the fetch-or-create is written and the form page shows the row |
| Views.ToFieldMap | apps/cpm2014/views.py:275-281 | the dict written for a row has exactly the five field names, and the row's fields are recovered from it unchanged |
| Views.ExportHasPair | apps/cpm2014/views.py:272-281 | every stored pair has its entry in the export, holding its fields |
| Views.ExportOnlyPairs | apps/cpm2014/views.py:272-281 | every entry of the export is a stored pair, and no submission appears with an empty dict |
| Views.ExportExact | apps/cpm2014/views.py:272-281 | the export holds an entry exactly for each stored pair, with that pair's fields |
| Views.ExportOfOne | apps/cpm2014/views.py:272-281 | a table holding one pair exports that one submission with that one language and its fields, and nothing else |
| Views.InnerPutOther | apps/cpm2014/views.py:275 | writing a pair leaves the dicts of other submissions alone |
| Views.InnerPutSame | apps/cpm2014/views.py:275 | writing a pair puts its dict into its own submission's dict |
| Views.IdsPut | apps/cpm2014/views.py:272-275 | writing a pair adds its submission to the export's keys and nothing else |
| Views.ExportPut | apps/cpm2014/views.py:272-281 | one assignment of the loop on the `defaultdict`: the row's dict goes under its submission and language and every other entry is kept |
| Views.FoldStep | apps/cpm2014/views.py:274-281 | one turn of the loop takes the export of the rows seen so far to the export of one more row |
| Views.FoldRows | apps/cpm2014/views.py:272-281 | the loop over all rows produces exactly the export of the rows' map view |
| Views.TranslationsAllJson | apps/cpm2014/views.py:270-286 | non-staff callers get a login redirect; staff get the export of the whole table; nothing is written |
| Views.ExportOfRows | apps/cpm2014/views.py:274-281 | under the constraint every stored row appears in the export under its own submission and language, and every export entry is a stored row |
| Views.ViewScenario | apps/cpm2014/views.py:227-243 | opening an untranslated pair on a new store creates one empty row, the table holds just that, and the page shows the original title, director and null genre beside empty translations |
| Views.EditScenario | apps/cpm2014/views.py:246-258 | saving a form with only a title stores that title and keeps the other fields empty |
| Views.ExportScenario | apps/cpm2014/views.py:270-281 | two exports with no write between them are equal, both the export of the table, and the saved title is under its submission and language |
| Views.EndToEndScenario | apps/cpm2014/views.py:227-281 | opening 42/en, saving a title and exporting, all on one store, gives an export holding exactly submission 42, language `en`, with that title and the other fields empty |

## Left out

- Persistence, the ORM's SQL and transactions are left out. Concurrent `get_or_create` calls and their race on the unique constraint are not modelled: each call is atomic here.
- Template rendering, `RequestContext`, `json.dumps` with its indentation and the HTTP response objects are left out. A view answers with the data it hands on.
- Reading the rules document from disk (`Rules.__call__`) is I/O and is not modelled, and neither is the sorted language list given to the template. Only `Rules.translation` is modelled. The application root is a parameter.
- `translation.get_language()` is a `currentLanguage` parameter. The case where it returns None is not modelled.
- Rules.Lower: lower-cases ASCII letters only, where Python's `str.lower` folds all of Unicode. The resolved language is still exact, because no non-ASCII character lower-cases to one of the ASCII letters of `be`, `ru` or `en`.
- The `lang` route pattern `\w{2}` of the rules page is not modelled. `Rules.Translation` accepts any string, which covers every code the route admits.
- `SubmissionTranslationForm` is not part of this model. Its validation is the `valid` parameter, and its cleaned data is a `Patch`.
- Views.TranslationEdit: on a bound but invalid form the contract says the page shows the stored row. In the source, the form's validation may already have copied the fields that did validate into that in-memory instance, so the page can show those values instead. Nothing of this reaches the table, and the contract states what is stored exactly.
- The `_()` labels of the comparison page are kept as their untranslated message ids.
- The contents of `TRANSLATION_LANGUAGES` are a parameter: the set `languages` of the store, of codes of at most two characters.
- Models.ProgramTranslationOf: requires the unique (language, program) constraint. The `MultipleObjectsReturned` error of `get` therefore cannot arise and is not modelled.
- Only the fields of `Submission` that the translation views read are modelled, and of `Program` only its id. The rest of `Submission`, `Program`'s code and section, and `get_absolute_url` with its hash are left out.
- `submit`, `partners`, `press_kit`, `SubmissionViewSet`, `Prescreening`, `NewsEntry`, `City`, `Place`, `Event` and the date-time fields are left out. They are not part of the translation subsystem.
- Views.EndToEndScenario: the denied non-staff request is not part of the scenario. It is stated for every input by the contracts of `Views.TranslationDetails`, `Views.TranslationEdit` and `Views.TranslationsAllJson`.
