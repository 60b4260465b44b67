/**
 * The translation records of the cpm2014 festival application: the fields of a
 * film submission that the translation views read, the per-language
 * SubmissionTranslation and ProgramTranslation overlays, the
 * SubmissionScreening link table, their unique_together constraints, and the
 * two per-language `translation` lookups with their per-instance cache.
 *
 * A database table is a sequence of rows in table order; a constraint
 * `unique_together` is a predicate on that sequence.
 */
module Models {
  import opened Base

  type SubmissionId = nat
  type ProgramId = nat

  /** A film submission, reduced to what the translation views read.
      `genre` is the one nullable field among them. */
  datatype Submission = Submission(
    id: SubmissionId,
    title: string,
    director: string,
    genre: Option<string>,
    synopsis: string)

  /** The five translatable strings of a SubmissionTranslation row. */
  datatype Fields = Fields(
    title: string,
    genre: string,
    synopsis: string,
    synopsisShort: string,
    director: string)

  /** Every translatable field defaults to the empty string. */
  const EmptyFields: Fields := Fields("", "", "", "", "")

  /** The pair a SubmissionTranslation is unique on. */
  type Key = (SubmissionId, string)

  datatype SubmissionTranslation = SubmissionTranslation(
    submission: SubmissionId,
    language: string,
    fields: Fields)
  {
    function Pair(): Key { (submission, language) }
  }

  /** The row created for a pair that has none yet: every field at its default. */
  function NewTranslation(id: SubmissionId, lang: string): (t: SubmissionTranslation)
    ensures t.Pair() == (id, lang)
    ensures t.fields.title == "" && t.fields.genre == "" && t.fields.synopsis == ""
    ensures t.fields.synopsisShort == "" && t.fields.director == ""
  {
    SubmissionTranslation(id, lang, EmptyFields)
  }

  /** The `language` column holds at most two characters, and its choices are
      the translation languages: every code of an admissible set fits. */
  ghost predicate ValidLanguages(languages: set<string>) {
    forall code :: code in languages ==> |code| <= 2
  }

  /** unique_together on (submission, language): no two rows share the pair. */
  ghost predicate UniquePairs(rows: seq<SubmissionTranslation>) {
    forall i, j :: 0 <= i < j < |rows| ==> rows[i].Pair() != rows[j].Pair()
  }

  /** Under the constraint, two rows with the same pair are the same row. */
  lemma SamePairSameRow(rows: seq<SubmissionTranslation>, s: SubmissionTranslation, t: SubmissionTranslation)
    requires UniquePairs(rows)
    requires s in rows && t in rows && s.Pair() == t.Pair()
    ensures s == t
  {
    var i :| 0 <= i < |rows| && rows[i] == s;
    var j :| 0 <= j < |rows| && rows[j] == t;
    assert i == j;
  }

  /** Appending a row whose pair is not yet stored keeps the constraint. */
  lemma AppendNewPair(rows: seq<SubmissionTranslation>, t: SubmissionTranslation)
    requires UniquePairs(rows)
    requires forall x :: x in rows ==> x.Pair() != t.Pair()
    ensures UniquePairs(rows + [t])
  {
    var extended := rows + [t];
    forall i, j | 0 <= i < j < |extended| ensures extended[i].Pair() != extended[j].Pair() {
      assert extended[i] == rows[i];
      if j < |rows| {
        assert extended[j] == rows[j];
      }
    }
  }

  // ---------------------------------------------------------------------------
  // Counting rows per pair

  /** How many rows of the table carry `key`. */
  function KeyCount(rows: seq<SubmissionTranslation>, key: Key): (n: nat)
    ensures n <= |rows|
    ensures n == 0 <==> forall t :: t in rows ==> t.Pair() != key
  {
    if rows == [] then 0
    else
      var last := rows[|rows| - 1];
      assert rows == rows[..|rows| - 1] + [last];
      KeyCount(rows[..|rows| - 1], key) + (if last.Pair() == key then 1 else 0)
  }

  /** The count is the number of positions of the table whose row carries `key`. */
  lemma {:induction false} KeyCountIsCount(rows: seq<SubmissionTranslation>, key: Key)
    ensures KeyCount(rows, key) == |set i | 0 <= i < |rows| && rows[i].Pair() == key|
  {
    if rows != [] {
      var prefix, last := rows[..|rows| - 1], rows[|rows| - 1];
      KeyCountIsCount(prefix, key);
      var before := set i | 0 <= i < |prefix| && prefix[i].Pair() == key;
      var after := set i | 0 <= i < |rows| && rows[i].Pair() == key;
      if last.Pair() == key {
        assert after == before + {|rows| - 1};
      } else {
        assert after == before;
      }
    }
  }

  /** Appending a row adds one to the count of its own pair only. */
  lemma {:induction false} KeyCountAppend(rows: seq<SubmissionTranslation>, t: SubmissionTranslation, key: Key)
    ensures KeyCount(rows + [t], key) == KeyCount(rows, key) + (if t.Pair() == key then 1 else 0)
  {
    assert (rows + [t])[..|rows + [t]| - 1] == rows;
  }

  /** At most one SubmissionTranslation exists per (submission, language) pair. */
  lemma {:induction false} AtMostOneRowPerPair(rows: seq<SubmissionTranslation>, key: Key)
    requires UniquePairs(rows)
    ensures KeyCount(rows, key) <= 1
  {
    if rows != [] {
      var prefix, last := rows[..|rows| - 1], rows[|rows| - 1];
      assert UniquePairs(prefix) by {
        forall i, j | 0 <= i < j < |prefix| ensures prefix[i].Pair() != prefix[j].Pair() {
          assert prefix[i] == rows[i] && prefix[j] == rows[j];
        }
      }
      AtMostOneRowPerPair(prefix, key);
      if last.Pair() == key {
        forall t | t in prefix ensures t.Pair() != key {
          var i :| 0 <= i < |prefix| && prefix[i] == t;
          assert rows[i] == t && rows[|rows| - 1] == last;
        }
      }
    }
  }

  // ---------------------------------------------------------------------------
  // Submission.translation

  /** `submission.submissiontranslation_set.all()`: the rows of submission `id`, in table order. */
  function TranslationSet(rows: seq<SubmissionTranslation>, id: SubmissionId): (r: seq<SubmissionTranslation>)
    ensures forall t :: t in r <==> t in rows && t.submission == id
  {
    if rows == [] then []
    else if rows[0].submission == id then [rows[0]] + TranslationSet(rows[1..], id)
    else TranslationSet(rows[1..], id)
  }

  /** `next((t for t in ts if t.language == lang), None)`: the first row in
      `ts` whose language is `lang`, or None when no row has it. */
  function FirstInLanguage(ts: seq<SubmissionTranslation>, lang: string): (r: Option<SubmissionTranslation>)
    ensures r.None? <==> forall t :: t in ts ==> t.language != lang
    ensures r.Some? ==> exists i :: 0 <= i < |ts| && ts[i] == r.value && r.value.language == lang &&
                                    forall j :: 0 <= j < i ==> ts[j].language != lang
  {
    if ts == [] then None
    else if ts[0].language == lang then Some(ts[0])
    else
      var r := FirstInLanguage(ts[1..], lang);
      assert r.Some? ==> exists i :: 1 <= i < |ts| && ts[i] == r.value && r.value.language == lang &&
                                     forall j :: 1 <= j < i ==> ts[j].language != lang;
      r
  }

  /** `Submission.translation`: a translation of submission `id` in the current
      language, or None exactly when the table has none. */
  function TranslationOf(rows: seq<SubmissionTranslation>, id: SubmissionId, currentLanguage: string): (r: Option<SubmissionTranslation>)
    ensures r.Some? ==> r.value in rows && r.value.Pair() == (id, currentLanguage)
    ensures r.None? <==> forall t :: t in rows ==> t.Pair() != (id, currentLanguage)
  {
    FirstInLanguage(TranslationSet(rows, id), currentLanguage)
  }

  /** Under the constraint the first match is the only match: whichever row
      carries the pair is the one returned. */
  lemma TranslationIsUnique(rows: seq<SubmissionTranslation>, t: SubmissionTranslation)
    requires UniquePairs(rows) && t in rows
    ensures TranslationOf(rows, t.submission, t.language) == Some(t)
  {
    var r := TranslationOf(rows, t.submission, t.language);
    SamePairSameRow(rows, r.value, t);
  }

  /** Under the constraint the scan order does not matter: any reordering of the
      table gives the same answer. */
  lemma TranslationOrderIrrelevant(rows: seq<SubmissionTranslation>, reordered: seq<SubmissionTranslation>, id: SubmissionId, lang: string)
    requires UniquePairs(rows) && multiset(rows) == multiset(reordered)
    ensures TranslationOf(rows, id, lang) == TranslationOf(reordered, id, lang)
  {
    var r := TranslationOf(reordered, id, lang);
    if r.Some? {
      assert r.value in multiset(reordered);
      TranslationIsUnique(rows, r.value);
    } else {
      forall t | t in rows ensures t.Pair() != (id, lang) {
        assert t in multiset(reordered);
      }
    }
  }

  // ---------------------------------------------------------------------------
  // The table as a map from pair to fields

  /** The table seen as a map from pair to fields (a later row for a pair
      would shadow an earlier one; under the constraint there is none). */
  function AsMap(rows: seq<SubmissionTranslation>): map<Key, Fields>
  {
    if rows == [] then map[]
    else
      var last := rows[|rows| - 1];
      AsMap(rows[..|rows| - 1])[last.Pair() := last.fields]
  }

  /** The map view holds exactly the pairs of the table. */
  lemma {:induction false} AsMapKeys(rows: seq<SubmissionTranslation>)
    ensures AsMap(rows).Keys == set t | t in rows :: t.Pair()
  {
    if rows != [] {
      var prefix, last := rows[..|rows| - 1], rows[|rows| - 1];
      assert rows == prefix + [last];
      AsMapKeys(prefix);
    }
  }

  /** Under the constraint every row is found in the map under its own pair. */
  lemma {:induction false} AsMapAt(rows: seq<SubmissionTranslation>, t: SubmissionTranslation)
    requires UniquePairs(rows) && t in rows
    ensures t.Pair() in AsMap(rows) && AsMap(rows)[t.Pair()] == t.fields
  {
    var prefix, last := rows[..|rows| - 1], rows[|rows| - 1];
    assert rows == prefix + [last];
    if t != last {
      assert t in prefix;
      var i :| 0 <= i < |prefix| && prefix[i] == t;
      assert rows[i] == t;
      assert t.Pair() != last.Pair();
      assert UniquePairs(prefix) by {
        forall i, j | 0 <= i < j < |prefix| ensures prefix[i].Pair() != prefix[j].Pair() {
          assert prefix[i] == rows[i] && prefix[j] == rows[j];
        }
      }
      AsMapAt(prefix, t);
    }
  }

  /** Under the constraint `Submission.translation` is a function of the map
      view alone: the stored row for the pair, or None. */
  lemma TranslationFromMap(rows: seq<SubmissionTranslation>, id: SubmissionId, lang: string)
    requires UniquePairs(rows)
    ensures TranslationOf(rows, id, lang) ==
            if (id, lang) in AsMap(rows) then Some(SubmissionTranslation(id, lang, AsMap(rows)[(id, lang)])) else None
  {
    var r := TranslationOf(rows, id, lang);
    if r.Some? {
      AsMapAt(rows, r.value);
    } else {
      AsMapKeys(rows);
    }
  }

  /** UPDATE of the row carrying `t`'s pair: every row with that pair is replaced by `t`. */
  function ReplaceRow(rows: seq<SubmissionTranslation>, t: SubmissionTranslation): (r: seq<SubmissionTranslation>)
    ensures |r| == |rows|
    ensures forall i :: 0 <= i < |rows| ==> r[i] == if rows[i].Pair() == t.Pair() then t else rows[i]
  {
    if rows == [] then []
    else
      var last := rows[|rows| - 1];
      ReplaceRow(rows[..|rows| - 1], t) + [if last.Pair() == t.Pair() then t else last]
  }

  /** The map view of a table extended by one row. */
  lemma AsMapSnoc(prefix: seq<SubmissionTranslation>, last: SubmissionTranslation)
    ensures AsMap(prefix + [last]) == AsMap(prefix)[last.Pair() := last.fields]
  {
    assert (prefix + [last])[..|prefix|] == prefix;
  }

  /** Replacing in a table extended by one row. */
  lemma ReplaceRowSnoc(prefix: seq<SubmissionTranslation>, last: SubmissionTranslation, t: SubmissionTranslation)
    ensures ReplaceRow(prefix + [last], t) == ReplaceRow(prefix, t) + [if last.Pair() == t.Pair() then t else last]
  {
    assert (prefix + [last])[..|prefix|] == prefix;
  }

  /** Replacing a stored row changes the map view at that pair only. */
  lemma {:induction false} AsMapReplace(rows: seq<SubmissionTranslation>, t: SubmissionTranslation)
    requires t.Pair() in AsMap(rows)
    ensures AsMap(ReplaceRow(rows, t)) == AsMap(rows)[t.Pair() := t.fields]
  {
    var prefix, last := rows[..|rows| - 1], rows[|rows| - 1];
    assert rows == prefix + [last];
    var k := t.Pair();
    var replaced := if last.Pair() == k then t else last;
    ReplaceRowSnoc(prefix, last, t);
    AsMapSnoc(ReplaceRow(prefix, t), replaced);
    AsMapSnoc(prefix, last);
    var before := AsMap(prefix);
    if k !in before {
      ReplaceRowAbsent(prefix, t);
    } else {
      AsMapReplace(prefix, t);
      if last.Pair() == k {
        UpdateTwice(before, k, t.fields, t.fields);
        UpdateTwice(before, k, last.fields, t.fields);
      } else {
        UpdateCommute(before, k, t.fields, last.Pair(), last.fields);
      }
    }
  }

  /** Replacing a pair the table does not hold changes nothing. */
  lemma ReplaceRowAbsent(rows: seq<SubmissionTranslation>, t: SubmissionTranslation)
    requires t.Pair() !in AsMap(rows)
    ensures ReplaceRow(rows, t) == rows
  {
    AsMapKeys(rows);
    assert forall i :: 0 <= i < |rows| ==> rows[i] in rows;
  }

  /** Replacing rows keeps every row's pair, hence keeps the constraint. */
  lemma ReplaceRowKeepsPairs(rows: seq<SubmissionTranslation>, t: SubmissionTranslation)
    requires UniquePairs(rows)
    ensures UniquePairs(ReplaceRow(rows, t))
    ensures forall i :: 0 <= i < |rows| ==> ReplaceRow(rows, t)[i].Pair() == rows[i].Pair()
    ensures forall x :: x in ReplaceRow(rows, t) ==> x == t || x in rows
  {
    forall x | x in ReplaceRow(rows, t) ensures x == t || x in rows {
      var i :| 0 <= i < |rows| && ReplaceRow(rows, t)[i] == x;
      assert x == t || x == rows[i];
    }
  }

  // ---------------------------------------------------------------------------
  // Program.translation

  datatype ProgramTranslation = ProgramTranslation(
    program: ProgramId,
    language: string,
    name: string,
    description: string)

  /** unique_together on (language, program). */
  ghost predicate UniqueProgramTranslations(rows: seq<ProgramTranslation>) {
    forall i, j :: 0 <= i < j < |rows| ==>
      (rows[i].language, rows[i].program) != (rows[j].language, rows[j].program)
  }

  /** The rows `ProgramTranslation.objects` selects for (program, language). */
  function ProgramMatches(rows: seq<ProgramTranslation>, program: ProgramId, lang: string): (r: seq<ProgramTranslation>)
    ensures forall t :: t in r <==> t in rows && t.program == program && t.language == lang
  {
    if rows == [] then []
    else if rows[0].program == program && rows[0].language == lang then [rows[0]] + ProgramMatches(rows[1..], program, lang)
    else ProgramMatches(rows[1..], program, lang)
  }

  /** At most one ProgramTranslation exists per (language, program) pair. */
  lemma {:induction false} AtMostOneProgramTranslation(rows: seq<ProgramTranslation>, program: ProgramId, lang: string)
    requires UniqueProgramTranslations(rows)
    ensures |ProgramMatches(rows, program, lang)| <= 1
  {
    if rows != [] {
      var rest := rows[1..];
      assert UniqueProgramTranslations(rest) by {
        forall i, j | 0 <= i < j < |rest|
          ensures (rest[i].language, rest[i].program) != (rest[j].language, rest[j].program)
        {
          assert rest[i] == rows[i + 1] && rest[j] == rows[j + 1];
        }
      }
      AtMostOneProgramTranslation(rest, program, lang);
      if rows[0].program == program && rows[0].language == lang {
        forall t | t in rest ensures !(t.program == program && t.language == lang) {
          var j :| 0 <= j < |rest| && rest[j] == t;
          assert rows[j + 1] == t;
        }
        var later := ProgramMatches(rest, program, lang);
        assert |later| > 0 ==> later[0] in later;
      }
    }
  }

  /** `Program.translation`: `ProgramTranslation.objects.get(program, language)`,
      with DoesNotExist turned into None. The constraint rules out the
      multiple-rows error of `get`. */
  function ProgramTranslationOf(rows: seq<ProgramTranslation>, program: ProgramId, lang: string): (r: Option<ProgramTranslation>)
    requires UniqueProgramTranslations(rows)
    ensures r.None? <==> forall t :: t in rows ==> !(t.program == program && t.language == lang)
    ensures forall t :: t in rows && t.program == program && t.language == lang ==> r == Some(t)
  {
    var matches := ProgramMatches(rows, program, lang);
    AtMostOneProgramTranslation(rows, program, lang);
    if |matches| == 0 then None
    else
      assert matches[0] in matches;
      assert forall t :: t in matches ==> t == matches[0];
      Some(matches[0])
  }

  // ---------------------------------------------------------------------------
  // SubmissionScreening

  datatype SubmissionScreening = SubmissionScreening(
    num: int,
    submission: SubmissionId,
    program: ProgramId)

  /** unique_together on (submission, program). */
  ghost predicate UniqueScreenings(rows: seq<SubmissionScreening>) {
    forall i, j :: 0 <= i < j < |rows| ==>
      (rows[i].submission, rows[i].program) != (rows[j].submission, rows[j].program)
  }

  /** Inserting a screening: the storage layer refuses (None) a second row for
      a (submission, program) pair already present, and otherwise appends it. */
  function InsertScreening(rows: seq<SubmissionScreening>, s: SubmissionScreening): (r: Option<seq<SubmissionScreening>>)
    requires UniqueScreenings(rows)
    ensures r.None? <==> exists t :: t in rows && t.submission == s.submission && t.program == s.program
    ensures r.Some? ==> r.value == rows + [s] && UniqueScreenings(r.value)
  {
    if exists i :: 0 <= i < |rows| && rows[i].submission == s.submission && rows[i].program == s.program then None
    else Some(rows + [s])
  }

  // ---------------------------------------------------------------------------
  // Model instances and their cached `translation` property

  /** A Submission instance; its `translation` is a cached property, computed
      on first access and returned unchanged afterwards. */
  class SubmissionInstance {
    const record: Submission
    var cache: Option<Option<SubmissionTranslation>>

    ghost predicate Valid()
      reads this
    {
      cache.Some? && cache.value.Some? ==> cache.value.value.submission == record.id
    }

    constructor (record: Submission)
      ensures this.record == record && cache == None && Valid()
    {
      this.record := record;
      cache := None;
    }

    method Translation(rows: seq<SubmissionTranslation>, currentLanguage: string) returns (t: Option<SubmissionTranslation>)
      requires Valid()
      modifies this
      ensures Valid() && cache == Some(t)
      ensures old(cache).Some? ==> t == old(cache).value
      ensures old(cache).None? ==> t == TranslationOf(rows, record.id, currentLanguage)
      ensures t.Some? ==> t.value.submission == record.id
    {
      if cache.None? {
        cache := Some(TranslationOf(rows, record.id, currentLanguage));
      }
      t := cache.value;
    }
  }

  /** A Program instance; its `translation` is cached in the same way. */
  class ProgramInstance {
    const id: ProgramId
    var cache: Option<Option<ProgramTranslation>>

    ghost predicate Valid()
      reads this
    {
      cache.Some? && cache.value.Some? ==> cache.value.value.program == id
    }

    constructor (id: ProgramId)
      ensures this.id == id && cache == None && Valid()
    {
      this.id := id;
      cache := None;
    }

    method Translation(rows: seq<ProgramTranslation>, currentLanguage: string) returns (t: Option<ProgramTranslation>)
      requires Valid() && UniqueProgramTranslations(rows)
      modifies this
      ensures Valid() && cache == Some(t)
      ensures old(cache).Some? ==> t == old(cache).value
      ensures old(cache).None? ==> t == ProgramTranslationOf(rows, id, currentLanguage)
      ensures t.Some? ==> t.value.program == id
    {
      if cache.None? {
        var r := ProgramTranslationOf(rows, id, currentLanguage);
        assert r.Some? ==> r.value in rows && r.value.program == id;
        cache := Some(r);
      }
      t := cache.value;
    }
  }
}
