/**
 * The staff translation views: the side-by-side comparison of a submission
 * and its translation, the edit form, and the bulk export of every
 * translation as a map keyed by submission id, then language.
 * Every view is behind `staff_member_required`.
 */
module Views {
  import opened Base
  import opened Models
  import opened Store

  /** One line of the comparison page: a label, the original value (None for
      a null original) and the translated value. */
  datatype ComparisonRow = ComparisonRow(caption: string, original: Option<string>, translated: string)

  /** The five fields of one translation as the export writes them. */
  type FieldMap = map<string, string>

  /** The export: submission id, then language code, then the five fields. */
  type Export = map<SubmissionId, map<string, FieldMap>>

  /** What a view answers. */
  datatype Response =
    | LoginRedirect
    | NotFound
    | DetailsPage(submission: Submission, data: seq<ComparisonRow>, lang: string)
    | EditPage(submission: Submission, translation: SubmissionTranslation, lang: string)
    | RedirectToDetails(id: SubmissionId, lang: string)
    | Json(body: Export)

  // ---------------------------------------------------------------------------
  // translation_details

  const Labels: seq<string> := ["Title", "Director", "Genre", "Synopsis", "Synopsis (short)"]

  /** The translated column of a five-row comparison, read back as fields. */
  function TranslatedColumn(data: seq<ComparisonRow>): Fields
    requires |data| == 5
  {
    Fields(data[0].translated, data[2].translated, data[3].translated, data[4].translated, data[1].translated)
  }

  /** The comparison list: five rows in the fixed order of `Labels`, originals
      from the submission (the short synopsis has none, so its original is
      empty), and a translated column from which the translation is recovered
      whole. */
  function ComparisonTable(s: Submission, t: Fields): (data: seq<ComparisonRow>)
    ensures |data| == |Labels| == 5
    ensures forall i :: 0 <= i < 5 ==> data[i].caption == Labels[i]
    ensures data[0].original == Some(s.title) && data[1].original == Some(s.director)
    ensures data[2].original == s.genre && data[3].original == Some(s.synopsis)
    ensures data[4].original == Some("")
    ensures TranslatedColumn(data) == t
  {
    [ ComparisonRow("Title", Some(s.title), t.title),
      ComparisonRow("Director", Some(s.director), t.director),
      ComparisonRow("Genre", s.genre, t.genre),
      ComparisonRow("Synopsis", Some(s.synopsis), t.synopsis),
      ComparisonRow("Synopsis (short)", Some(""), t.synopsisShort) ]
  }

  /** The fields a pair shows once `get_or_create` has run on it. */
  function FieldsAfterGetOrCreate(table: map<Key, Fields>, key: Key): Fields {
    if key in table then table[key] else EmptyFields
  }

  /** `translation_details`: non-staff callers are sent to log in and an
      unknown submission is not found, both without a write; otherwise the
      pair's row is fetched or created and shown beside the original. */
  method TranslationDetails(store: TranslationStore, isStaff: bool, id: SubmissionId, lang: string) returns (resp: Response)
    requires store.Valid() && lang in store.languages
    modifies store
    ensures store.Valid() && store.submissions == old(store.submissions)
    ensures !isStaff ==> resp == LoginRedirect && store.rows == old(store.rows)
    ensures isStaff && id !in store.submissions ==> resp == NotFound && store.rows == old(store.rows)
    ensures isStaff && id in store.submissions ==>
              var f := FieldsAfterGetOrCreate(old(store.Table()), (id, lang));
              && store.Table() == old(store.Table())[(id, lang) := f]
              && resp == DetailsPage(store.submissions[id], ComparisonTable(store.submissions[id], f), lang)
  {
    if !isStaff {
      return LoginRedirect;
    }
    if id !in store.submissions {
      return NotFound;
    }
    var submission := store.submissions[id];
    var fetched := store.GetOrCreate(id, lang);
    resp := DetailsPage(submission, ComparisonTable(submission, fetched.row.fields), lang);
  }

  // ---------------------------------------------------------------------------
  // translation_edit

  /** `translation_edit`: the pair's row is fetched or created first, whatever
      the form holds. `post` is None when the request carries no form data (the
      form is then unbound and never valid); `valid` is the form's validation.
      A valid form is saved and the caller redirected to the details of the
      same pair; otherwise nothing more is written and the form is shown again. */
  method TranslationEdit(store: TranslationStore, isStaff: bool, id: SubmissionId, lang: string,
                         post: Option<Patch>, valid: Patch -> bool) returns (resp: Response)
    requires store.Valid() && lang in store.languages
    modifies store
    ensures store.Valid() && store.submissions == old(store.submissions)
    ensures !isStaff ==> resp == LoginRedirect && store.rows == old(store.rows)
    ensures isStaff && id !in store.submissions ==> resp == NotFound && store.rows == old(store.rows)
    ensures isStaff && id in store.submissions ==>
              var f := FieldsAfterGetOrCreate(old(store.Table()), (id, lang));
              if post.Some? && valid(post.value) then
                && store.Table() == old(store.Table())[(id, lang) := Apply(f, post.value)]
                && resp == RedirectToDetails(id, lang)
              else
                && store.Table() == old(store.Table())[(id, lang) := f]
                && resp == EditPage(store.submissions[id], SubmissionTranslation(id, lang, f), lang)
  {
    if !isStaff {
      return LoginRedirect;
    }
    if id !in store.submissions {
      return NotFound;
    }
    var submission := store.submissions[id];
    var fetched := store.GetOrCreate(id, lang);
    if post.Some? && valid(post.value) {
      ghost var table := store.Table();
      var saved := store.Update(id, lang, post.value);
      assert table[(id, lang) := fetched.row.fields][(id, lang) := saved.value.fields]
          == table[(id, lang) := saved.value.fields];
      return RedirectToDetails(id, lang);
    }
    resp := EditPage(submission, fetched.row, lang);
  }

  // ---------------------------------------------------------------------------
  // translations_all_json

  const FieldNames: set<string> := {"title", "genre", "synopsis", "synopsis_short", "director"}

  /** The five fields of a FieldMap read back as a record. */
  function FieldsOf(m: FieldMap): Fields
    requires FieldNames <= m.Keys
  {
    Fields(m["title"], m["genre"], m["synopsis"], m["synopsis_short"], m["director"])
  }

  /** The dict written for one row: exactly the five field names, from which
      the row's fields are recovered unchanged. */
  function ToFieldMap(f: Fields): (m: FieldMap)
    ensures m.Keys == FieldNames
    ensures FieldsOf(m) == f
  {
    map["title" := f.title, "genre" := f.genre, "synopsis" := f.synopsis,
        "synopsis_short" := f.synopsisShort, "director" := f.director]
  }

  /** The submission ids with at least one translation. */
  function IdsOf(m: map<Key, Fields>): set<SubmissionId> {
    set k | k in m :: k.0
  }

  /** The languages submission `id` has a translation in. */
  function LanguagesOf(m: map<Key, Fields>, id: SubmissionId): (langs: set<string>)
    ensures forall lang :: lang in langs <==> (id, lang) in m
  {
    set k | k in m && k.0 == id :: k.1
  }

  /** The languages-to-fields dict of one submission in the export. */
  function InnerOf(m: map<Key, Fields>, id: SubmissionId): map<string, FieldMap> {
    map lang | lang in LanguagesOf(m, id) :: ToFieldMap(m[(id, lang)])
  }

  /** The export of a table, defined pair by pair: for each translated
      submission, for each of its languages, that translation's fields. */
  function ExportOf(m: map<Key, Fields>): Export {
    map id | id in IdsOf(m) :: InnerOf(m, id)
  }

  /** Each stored pair has its entry in the export, holding its fields. */
  lemma ExportHasPair(m: map<Key, Fields>, id: SubmissionId, lang: string)
    requires (id, lang) in m
    ensures id in ExportOf(m) && lang in ExportOf(m)[id]
    ensures ExportOf(m)[id][lang] == ToFieldMap(m[(id, lang)])
  {
    assert (id, lang).0 == id;
    assert id in IdsOf(m);
    assert ExportOf(m)[id] == InnerOf(m, id);
    assert lang in LanguagesOf(m, id);
  }

  /** Each entry of the export is a stored pair, and no submission appears
      without at least one language. */
  lemma ExportOnlyPairs(m: map<Key, Fields>, id: SubmissionId)
    requires id in ExportOf(m)
    ensures ExportOf(m)[id] != map[]
    ensures forall lang :: lang in ExportOf(m)[id] ==> (id, lang) in m
  {
    var k :| k in m && k.0 == id;
    assert k == (id, k.1);
    assert ExportOf(m)[id] == InnerOf(m, id);
    assert k.1 in LanguagesOf(m, id);
    assert k.1 in ExportOf(m)[id];
  }

  /** The export holds an entry exactly for each stored pair, with that pair's
      fields, and no submission without a translation. */
  lemma ExportExact(m: map<Key, Fields>)
    ensures forall id, lang :: (id, lang) in m ==>
              id in ExportOf(m) && lang in ExportOf(m)[id] && ExportOf(m)[id][lang] == ToFieldMap(m[(id, lang)])
    ensures forall id :: id in ExportOf(m) ==>
              ExportOf(m)[id] != map[] && forall lang :: lang in ExportOf(m)[id] ==> (id, lang) in m
  {
    forall id, lang | (id, lang) in m
      ensures id in ExportOf(m) && lang in ExportOf(m)[id] && ExportOf(m)[id][lang] == ToFieldMap(m[(id, lang)])
    {
      ExportHasPair(m, id, lang);
    }
    forall id | id in ExportOf(m)
      ensures ExportOf(m)[id] != map[] && forall lang :: lang in ExportOf(m)[id] ==> (id, lang) in m
    {
      ExportOnlyPairs(m, id);
    }
  }

  /** A table holding one pair exports one submission with one language. */
  lemma ExportOfOne(k: Key, f: Fields)
    ensures ExportOf(map[k := f]) == map[k.0 := map[k.1 := ToFieldMap(f)]]
  {
    var m := map[k := f];
    var expected := map[k.0 := map[k.1 := ToFieldMap(f)]];
    ExportHasPair(m, k.0, k.1);
    forall id | id in ExportOf(m) ensures id == k.0 && ExportOf(m)[id] == expected[id] {
      ExportOnlyPairs(m, id);
      var lang :| lang in ExportOf(m)[id];
    }
  }

  /** Storing a pair leaves the dicts of the other submissions alone. */
  lemma InnerPutOther(m: map<Key, Fields>, t: SubmissionTranslation, id: SubmissionId)
    requires id != t.submission
    ensures InnerOf(m[t.Pair() := t.fields], id) == InnerOf(m, id)
  {
    assert LanguagesOf(m[t.Pair() := t.fields], id) == LanguagesOf(m, id);
  }

  /** Storing a pair puts its dict into its own submission's dict. */
  lemma InnerPutSame(m: map<Key, Fields>, t: SubmissionTranslation)
    ensures InnerOf(m[t.Pair() := t.fields], t.submission) ==
            InnerOf(m, t.submission)[t.language := ToFieldMap(t.fields)]
  {
    assert LanguagesOf(m[t.Pair() := t.fields], t.submission) == LanguagesOf(m, t.submission) + {t.language};
  }

  /** The submissions of a table with one more pair stored. */
  lemma IdsPut(m: map<Key, Fields>, t: SubmissionTranslation)
    ensures IdsOf(m[t.Pair() := t.fields]) == IdsOf(m) + {t.submission}
  {
    var m' := m[t.Pair() := t.fields];
    forall id | id in IdsOf(m') ensures id in IdsOf(m) + {t.submission} {
      var k :| k in m' && k.0 == id;
      if k != t.Pair() { assert k in m; }
    }
    forall id | id in IdsOf(m) ensures id in IdsOf(m') {
      var k :| k in m && k.0 == id;
      assert k in m';
    }
    assert t.Pair() in m' && t.Pair().0 == t.submission;
  }

  /** Folding one more row into the export: the row's dict is put under its
      submission and language, and every other entry is kept. */
  lemma ExportPut(m: map<Key, Fields>, t: SubmissionTranslation)
    ensures var e := ExportOf(m);
            ExportOf(m[t.Pair() := t.fields]) ==
            e[t.submission := (if t.submission in e then e[t.submission] else map[])[t.language := ToFieldMap(t.fields)]]
  {
    var m' := m[t.Pair() := t.fields];
    var e, e' := ExportOf(m), ExportOf(m');
    IdsPut(m, t);
    InnerPutSame(m, t);
    if t.submission !in e {
      assert LanguagesOf(m, t.submission) == {};
      assert InnerOf(m, t.submission) == map[];
    }
    var expected := e[t.submission := e'[t.submission]];
    forall id | id in e' && id != t.submission ensures e'[id] == e[id] {
      InnerPutOther(m, t, id);
    }
    assert e' == expected;
  }

  /** One turn of the export loop, stated on the prefix of rows it has seen. */
  lemma FoldStep(all: seq<SubmissionTranslation>, i: nat)
    requires i < |all|
    ensures var e := ExportOf(AsMap(all[..i]));
            var t := all[i];
            ExportOf(AsMap(all[..i + 1])) ==
            e[t.submission := (if t.submission in e then e[t.submission] else map[])[t.language := ToFieldMap(t.fields)]]
  {
    assert all[..i + 1] == all[..i] + [all[i]];
    AsMapSnoc(all[..i], all[i]);
    ExportPut(AsMap(all[..i]), all[i]);
  }

  /** The `for` loop of `translations_all_json`: each row in turn is written
      under its submission and language into a dict of dicts, which ends up
      equal to the export of the rows' map view. */
  method FoldRows(all: seq<SubmissionTranslation>) returns (out: Export)
    ensures out == ExportOf(AsMap(all))
  {
    out := map[];
    assert ExportOf(AsMap(all[..0])) == map[];
    var i := 0;
    while i < |all|
      invariant 0 <= i <= |all|
      invariant out == ExportOf(AsMap(all[..i]))
    {
      var t := all[i];
      var inner := if t.submission in out then out[t.submission] else map[];
      out := out[t.submission := inner[t.language := ToFieldMap(t.fields)]];
      FoldStep(all, i);
      i := i + 1;
    }
    assert all[..i] == all;
  }

  /** `translations_all_json`: non-staff callers are sent to log in; staff get
      the export of the whole table. The view writes nothing, so two exports
      with no write between them are equal. */
  method TranslationsAllJson(store: TranslationStore, isStaff: bool) returns (resp: Response)
    requires store.Valid()
    ensures !isStaff ==> resp == LoginRedirect
    ensures isStaff ==> resp == Json(ExportOf(store.Table()))
  {
    if !isStaff {
      return LoginRedirect;
    }
    var all := store.ListAll();
    var out := FoldRows(all);
    resp := Json(out);
  }

  /** Under the unique pair every stored row appears in the export under its
      own submission and language, and every entry of the export is a row. */
  lemma ExportOfRows(rows: seq<SubmissionTranslation>)
    requires UniquePairs(rows)
    ensures forall t :: t in rows ==>
              var e := ExportOf(AsMap(rows));
              t.submission in e && t.language in e[t.submission] && e[t.submission][t.language] == ToFieldMap(t.fields)
    ensures var e := ExportOf(AsMap(rows));
            forall id, lang :: id in e && lang in e[id] ==>
              exists t :: t in rows && t.Pair() == (id, lang) && e[id][lang] == ToFieldMap(t.fields)
  {
    var m := AsMap(rows);
    ExportExact(m);
    AsMapKeys(rows);
    forall t | t in rows ensures t.Pair() in m && m[t.Pair()] == t.fields {
      AsMapAt(rows, t);
    }
    forall id, lang | id in ExportOf(m) && lang in ExportOf(m)[id]
      ensures exists t :: t in rows && t.Pair() == (id, lang) && ExportOf(m)[id][lang] == ToFieldMap(t.fields)
    {
      assert (id, lang) in m;
      var t :| t in rows && t.Pair() == (id, lang);
      AsMapAt(rows, t);
    }
  }

  /** A staff member opens the English translation of submission 42, which
      has none yet: an empty one is created and shown beside the original. */
  method ViewScenario() returns (store: TranslationStore, page: Response)
    ensures fresh(store)
    ensures store.Valid() && "en" in store.languages && 42 in store.submissions
    ensures store.Table() == map[(42, "en") := EmptyFields]
    ensures page.DetailsPage? && |page.data| == 5
    ensures page.data[0] == ComparisonRow("Title", Some("Original"), "")
    ensures page.data[1] == ComparisonRow("Director", Some("Ana"), "")
    ensures page.data[2] == ComparisonRow("Genre", None, "")
  {
    var submission := Submission(42, "Original", "Ana", None, "");
    store := new TranslationStore({"en", "ru"}, map[42 := submission]);
    assert store.Table() == map[];
    page := TranslationDetails(store, true, 42, "en");
  }

  /** Saving a form that carries only a title then stores that title, keeps
      the other fields empty, and redirects to the details of the same pair. */
  method EditScenario(store: TranslationStore)
    requires store.Valid() && "en" in store.languages && 42 in store.submissions
    requires store.Table() == map[(42, "en") := EmptyFields]
    modifies store
    ensures store.Valid() && store.Table() == map[(42, "en") := Fields("Hello", "", "", "", "")]
  {
    var title := Patch(Some("Hello"), None, None, None, None);
    assert Apply(EmptyFields, title) == Fields("Hello", "", "", "", "");
    var edited := TranslationEdit(store, true, 42, "en", Some(title), p => true);
    assert edited == RedirectToDetails(42, "en");
  }

  /** Exporting that table: the saved title is under submission 42 and
      language `en`, and a second export is the same. */
  method ExportScenario(store: TranslationStore) returns (first: Response, second: Response)
    requires store.Valid() && store.Table() == map[(42, "en") := Fields("Hello", "", "", "", "")]
    ensures first == second && first == Json(ExportOf(store.Table()))
    ensures 42 in first.body && "en" in first.body[42] && first.body[42]["en"] == ToFieldMap(Fields("Hello", "", "", "", ""))
  {
    first := TranslationsAllJson(store, true);
    second := TranslationsAllJson(store, true);
    ExportHasPair(store.Table(), 42, "en");
  }

  /** The three steps on one store: a staff member opens the English
      translation of submission 42, saves a title, and exports every
      translation. The export holds exactly that one saved translation. */
  method EndToEndScenario() returns (response: Response)
    ensures response == Json(map[42 := map["en" := ToFieldMap(Fields("Hello", "", "", "", ""))]])
  {
    var store, page := ViewScenario();
    EditScenario(store);
    var second;
    response, second := ExportScenario(store);
    ExportOfOne((42, "en"), Fields("Hello", "", "", "", ""));
  }
}
