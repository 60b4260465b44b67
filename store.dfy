/**
 * The SubmissionTranslation table as the staff translation views use it:
 * `get_or_create` on a (submission, language) pair, the form save that
 * overwrites the fields of a row, and the listing of every row. The store
 * also holds the Submission table, which the translation rows refer to.
 */
module Store {
  import opened Base
  import opened Models

  /** What `get_or_create` answers: the row, and whether it was just inserted. */
  datatype Fetched = Fetched(row: SubmissionTranslation, created: bool)

  /** The cleaned data of a valid SubmissionTranslationForm: `Some` for each
      field the form carries, `None` for a field it does not. */
  datatype Patch = Patch(
    title: Option<string>,
    genre: Option<string>,
    synopsis: Option<string>,
    synopsisShort: Option<string>,
    director: Option<string>)

  /** The fields of a row after `form.save()`: the form's values where it
      carries a field, the stored values elsewhere. */
  function Apply(f: Fields, p: Patch): (r: Fields)
    ensures p.title.Some? ==> r.title == p.title.value
    ensures p.title.None? ==> r.title == f.title
    ensures p.genre.Some? ==> r.genre == p.genre.value
    ensures p.genre.None? ==> r.genre == f.genre
    ensures p.synopsis.Some? ==> r.synopsis == p.synopsis.value
    ensures p.synopsis.None? ==> r.synopsis == f.synopsis
    ensures p.synopsisShort.Some? ==> r.synopsisShort == p.synopsisShort.value
    ensures p.synopsisShort.None? ==> r.synopsisShort == f.synopsisShort
    ensures p.director.Some? ==> r.director == p.director.value
    ensures p.director.None? ==> r.director == f.director
  {
    Fields(
      p.title.GetOr(f.title),
      p.genre.GetOr(f.genre),
      p.synopsis.GetOr(f.synopsis),
      p.synopsisShort.GetOr(f.synopsisShort),
      p.director.GetOr(f.director))
  }

  /** Saving the same form twice stores what saving it once stores, and a form
      carrying every field stores its own values whatever was there before. */
  lemma ApplyProperties(f: Fields, g: Fields, p: Patch)
    ensures Apply(Apply(f, p), p) == Apply(f, p)
    ensures p.title.Some? && p.genre.Some? && p.synopsis.Some? && p.synopsisShort.Some? && p.director.Some?
            ==> Apply(f, p) == Apply(g, p)
  {
  }

  class TranslationStore {
    /** The translation language codes the routes admit. */
    const languages: set<string>
    /** The Submission table, by id. */
    var submissions: map<SubmissionId, Submission>
    /** The SubmissionTranslation table, in insertion order. */
    var rows: seq<SubmissionTranslation>

    /** The table constraints: the unique pair, the foreign key to Submission,
        and a language code from the translation languages. */
    ghost predicate Valid()
      reads this
    {
      && ValidLanguages(languages)
      && (forall id :: id in submissions ==> submissions[id].id == id)
      && UniquePairs(rows)
      && (forall t :: t in rows ==> t.submission in submissions && t.language in languages)
    }

    /** The table seen as a map from (submission, language) to the five fields. */
    ghost function Table(): map<Key, Fields>
      reads this
    {
      AsMap(rows)
    }

    constructor (languages: set<string>, submissions: map<SubmissionId, Submission>)
      requires ValidLanguages(languages)
      requires forall id :: id in submissions ==> submissions[id].id == id
      ensures Valid()
      ensures this.languages == languages && this.submissions == submissions && rows == []
    {
      this.languages := languages;
      this.submissions := submissions;
      rows := [];
    }

    /** `SubmissionTranslation.objects.get_or_create(submission, language)`:
        afterwards exactly one row carries the pair; an existing row is
        returned unchanged, otherwise a row with empty fields is inserted. */
    method GetOrCreate(id: SubmissionId, lang: string) returns (r: Fetched)
      requires Valid() && id in submissions && lang in languages
      modifies this
      ensures Valid() && submissions == old(submissions)
      ensures r.row.Pair() == (id, lang) && r.row in rows
      ensures KeyCount(rows, (id, lang)) == 1
      ensures forall x :: x in rows && x.Pair() == (id, lang) ==> x == r.row
      ensures r.created <==> (id, lang) !in old(Table())
      ensures !r.created ==> rows == old(rows) && r.row.fields == old(Table())[(id, lang)]
      ensures r.created ==> rows == old(rows) + [r.row] && r.row.fields == EmptyFields
      ensures Table() == old(Table())[(id, lang) := r.row.fields]
    {
      var found := TranslationOf(rows, id, lang);
      TranslationFromMap(rows, id, lang);
      if found.Some? {
        AtMostOneRowPerPair(rows, (id, lang));
        UpdateSame(AsMap(rows), (id, lang));
        r := Fetched(found.value, false);
      } else {
        var t := NewTranslation(id, lang);
        KeyCountAppend(rows, t, (id, lang));
        AsMapSnoc(rows, t);
        AppendNewPair(rows, t);
        ghost var before := rows;
        rows := rows + [t];
        assert forall x :: x in rows ==> x in before || x == t;
        r := Fetched(t, true);
      }
    }

    /** `form.save()` on the row of a pair: the form's fields overwrite the
        stored ones and nothing else changes; without a row for the pair it is
        a not-found error (None) and nothing is written. */
    method Update(id: SubmissionId, lang: string, p: Patch) returns (r: Option<SubmissionTranslation>)
      requires Valid()
      modifies this
      ensures Valid() && submissions == old(submissions) && |rows| == |old(rows)|
      ensures (id, lang) !in old(Table()) ==> r.None? && rows == old(rows)
      ensures (id, lang) in old(Table()) ==>
                && r == Some(SubmissionTranslation(id, lang, Apply(old(Table())[(id, lang)], p)))
                && Table() == old(Table())[(id, lang) := r.value.fields]
    {
      var found := TranslationOf(rows, id, lang);
      TranslationFromMap(rows, id, lang);
      if found.None? {
        return None;
      }
      var t := found.value.(fields := Apply(found.value.fields, p));
      ReplaceRowKeepsPairs(rows, t);
      AsMapReplace(rows, t);
      rows := ReplaceRow(rows, t);
      r := Some(t);
    }

    /** `SubmissionTranslation.objects.all()`: every stored row once, in some
        order, each with a pair from the table and a language code of at most
        two characters. */
    method ListAll() returns (all: seq<SubmissionTranslation>)
      requires Valid()
      ensures forall t :: t in all <==> t in rows
      ensures UniquePairs(all) && AsMap(all) == Table()
      ensures forall t :: t in all ==> t.submission in submissions && t.language in languages && |t.language| <= 2
    {
      all := rows;
    }
  }
}
