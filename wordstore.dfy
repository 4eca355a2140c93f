/**
  The `words` table of the dictionary database: one row per word, the word
  column unique, and the three list columns stored as ", "-delimited text.
  Seeding inserts rows with INSERT OR IGNORE, so a word already present keeps
  its row; reading a word splits the delimited columns back into lists.
 */
module WordStore {
  import opened Wrappers
  import opened PyStr

  /** The delimiter of the list columns. */
  const Delim: string := ", "

  /** The columns of a row other than its key `word`. */
  datatype Row = Row(meaning: string, synonyms: string, antonyms: string, related: string)

  /** One tuple handed to the INSERT statement: the key and the row. */
  datatype SeedRecord = SeedRecord(word: string, row: Row)

  /** What a lookup returns: the row with its list columns split into lists. */
  datatype Entry = Entry(
    word: string,
    meaning: string,
    synonyms: seq<string>,
    antonyms: seq<string>,
    related: seq<string>)

  /** No value appears twice in `s`. */
  predicate Distinct(s: seq<string>) {
    forall i, j :: 0 <= i < j < |s| ==> s[i] != s[j]
  }

  /** The set of words a batch of records names. */
  function WordsOf(batch: seq<SeedRecord>): (ws: set<string>)
    ensures forall i :: 0 <= i < |batch| ==> batch[i].word in ws
    ensures forall w :: w in ws ==> exists i :: 0 <= i < |batch| && batch[i].word == w
  {
    set i | 0 <= i < |batch| :: batch[i].word
  }

  // ---------------------------------------------------------------------------
  // INSERT OR IGNORE, on the table's contents
  // ---------------------------------------------------------------------------

  /** INSERT OR IGNORE of one record: a word already present keeps its row. */
  function Insert(rows: map<string, Row>, rec: SeedRecord): (r: map<string, Row>)
    ensures r.Keys == rows.Keys + {rec.word}
    ensures forall w :: w in rows ==> r[w] == rows[w]
    ensures rec.word !in rows ==> r[rec.word] == rec.row
  {
    if rec.word in rows then rows else rows[rec.word := rec.row]
  }

  /**
    `executemany` of INSERT OR IGNORE over a batch, one record after another.
    The old keys stay and every word of the batch becomes a key.
   */
  function SeedAll(rows: map<string, Row>, batch: seq<SeedRecord>): (r: map<string, Row>)
    ensures rows.Keys <= r.Keys
    ensures forall i :: 0 <= i < |batch| ==> batch[i].word in r
    decreases |batch|
  {
    if batch == [] then rows
    else Insert(SeedAll(rows, batch[..|batch| - 1]), batch[|batch| - 1])
  }

  /** The words a batch adds to the table, in the order their rows are created. */
  function NewWords(rows: map<string, Row>, batch: seq<SeedRecord>): seq<string>
    decreases |batch|
  {
    if batch == [] then []
    else
      var prefix := batch[..|batch| - 1];
      var w := batch[|batch| - 1].word;
      NewWords(rows, prefix) + (if w in SeedAll(rows, prefix) then [] else [w])
  }

  /** Seeding keeps every row already present: a key's original row is never overwritten. */
  lemma {:induction false} SeedAllKeepsExisting(rows: map<string, Row>, batch: seq<SeedRecord>, w: string)
    requires w in rows
    ensures w in SeedAll(rows, batch) && SeedAll(rows, batch)[w] == rows[w]
    decreases |batch|
  {
    if batch != [] {
      SeedAllKeepsExisting(rows, batch[..|batch| - 1], w);
    }
  }

  /** After seeding, the keys are the old keys and the batch's words, nothing else. */
  lemma {:induction false} SeedAllKeys(rows: map<string, Row>, batch: seq<SeedRecord>)
    ensures SeedAll(rows, batch).Keys == rows.Keys + WordsOf(batch)
    decreases |batch|
  {
    if batch != [] {
      var prefix := batch[..|batch| - 1];
      SeedAllKeys(rows, prefix);
      assert WordsOf(batch) == WordsOf(prefix) + {batch[|batch| - 1].word} by {
        forall w | w in WordsOf(batch)
          ensures w in WordsOf(prefix) + {batch[|batch| - 1].word}
        {
          var i :| 0 <= i < |batch| && batch[i].word == w;
          if i < |batch| - 1 {
            assert prefix[i].word == w;
          }
        }
      }
    }
  }

  /** Seeding a table that already holds every word of the batch changes nothing. */
  lemma {:induction false} SeedAllPresent(rows: map<string, Row>, batch: seq<SeedRecord>)
    requires WordsOf(batch) <= rows.Keys
    ensures SeedAll(rows, batch) == rows
    ensures NewWords(rows, batch) == []
    decreases |batch|
  {
    if batch != [] {
      var prefix := batch[..|batch| - 1];
      assert WordsOf(prefix) <= WordsOf(batch) by {
        forall i | 0 <= i < |prefix| ensures prefix[i].word in WordsOf(batch) {
          assert prefix[i] == batch[i];
        }
      }
      SeedAllPresent(rows, prefix);
    }
  }

  /** Running the seed twice leaves the table as running it once: nothing is duplicated or replaced. */
  lemma SeedAllIdempotent(rows: map<string, Row>, batch: seq<SeedRecord>)
    ensures SeedAll(SeedAll(rows, batch), batch) == SeedAll(rows, batch)
    ensures NewWords(SeedAll(rows, batch), batch) == []
  {
    SeedAllKeys(rows, batch);
    SeedAllPresent(SeedAll(rows, batch), batch);
  }

  /**
    Within one batch the first record for a word wins: a word absent from the
    table gets the row of its first record, whatever later records say.
   */
  lemma {:induction false} FirstWriteWins(rows: map<string, Row>, batch: seq<SeedRecord>, i: nat)
    requires i < |batch| && batch[i].word !in rows
    requires forall j :: 0 <= j < i ==> batch[j].word != batch[i].word
    ensures batch[i].word in SeedAll(rows, batch)
    ensures SeedAll(rows, batch)[batch[i].word] == batch[i].row
    decreases |batch|
  {
    var prefix := batch[..|batch| - 1];
    if i == |batch| - 1 {
      assert batch[i].word !in SeedAll(rows, prefix) by {
        SeedAllKeys(rows, prefix);
      }
    } else {
      FirstWriteWins(rows, prefix, i);
    }
  }

  /**
    The rows a seed creates are for distinct words that were not in the table,
    and each of them is in the table afterwards: the table never holds two
    rows for one word.
   */
  lemma {:induction false} NewWordsFresh(rows: map<string, Row>, batch: seq<SeedRecord>)
    ensures Distinct(NewWords(rows, batch))
    ensures forall k :: 0 <= k < |NewWords(rows, batch)| ==> NewWords(rows, batch)[k] !in rows
    ensures forall w :: w in SeedAll(rows, batch) <==> w in rows || w in NewWords(rows, batch)
    decreases |batch|
  {
    if batch != [] {
      var prefix := batch[..|batch| - 1];
      NewWordsFresh(rows, prefix);
    }
  }

  // ---------------------------------------------------------------------------
  // query_word
  // ---------------------------------------------------------------------------

  /**
    The dict `query_word` builds from a row: word and meaning as stored, and
    each list column split on ", " into at least one part that joins back to
    the column and none of which contains ", ".
   */
  function ToEntry(word: string, row: Row): (e: Entry)
    ensures e.word == word && e.meaning == row.meaning
    ensures Join(e.synonyms, Delim) == row.synonyms
    ensures Join(e.antonyms, Delim) == row.antonyms
    ensures Join(e.related, Delim) == row.related
    ensures |e.synonyms| >= 1 && |e.antonyms| >= 1 && |e.related| >= 1
    ensures forall k :: 0 <= k < |e.synonyms| ==> !Contains(e.synonyms[k], Delim)
    ensures forall k :: 0 <= k < |e.antonyms| ==> !Contains(e.antonyms[k], Delim)
    ensures forall k :: 0 <= k < |e.related| ==> !Contains(e.related[k], Delim)
  {
    Entry(word, row.meaning, Split(row.synonyms, Delim), Split(row.antonyms, Delim), Split(row.related, Delim))
  }

  /**
    `query_word`: exact-key lookup. Absent exactly when the word is not a key;
    otherwise the entry carries the word and the row's meaning, and each list
    joins back with ", " to the stored column, has at least one element, and
    none of its elements contains ", ".
   */
  function QueryWord(rows: map<string, Row>, word: string): (r: Option<Entry>)
    ensures r.None? <==> word !in rows
    ensures r.Some? ==> r.value.word == word && r.value.meaning == rows[word].meaning
    ensures r.Some? ==> Join(r.value.synonyms, Delim) == rows[word].synonyms
    ensures r.Some? ==> Join(r.value.antonyms, Delim) == rows[word].antonyms
    ensures r.Some? ==> Join(r.value.related, Delim) == rows[word].related
    ensures r.Some? ==> |r.value.synonyms| >= 1 && |r.value.antonyms| >= 1 && |r.value.related| >= 1
    ensures r.Some? ==> forall k :: 0 <= k < |r.value.synonyms| ==> !Contains(r.value.synonyms[k], Delim)
    ensures r.Some? ==> forall k :: 0 <= k < |r.value.antonyms| ==> !Contains(r.value.antonyms[k], Delim)
    ensures r.Some? ==> forall k :: 0 <= k < |r.value.related| ==> !Contains(r.value.related[k], Delim)
  {
    if word in rows then Some(ToEntry(word, rows[word])) else None
  }

  /**
    After seeding, every word of the batch is found, with the fields of its
    first record: the meaning as stored and each list the ", "-split of the
    stored text. Words that were already in the table keep their old row.
   */
  lemma SeededWordFound(rows: map<string, Row>, batch: seq<SeedRecord>, i: nat)
    requires i < |batch| && batch[i].word !in rows
    requires forall j :: 0 <= j < i ==> batch[j].word != batch[i].word
    ensures QueryWord(SeedAll(rows, batch), batch[i].word) == Some(ToEntry(batch[i].word, batch[i].row))
  {
    FirstWriteWins(rows, batch, i);
  }

  // ---------------------------------------------------------------------------
  // The seed data of init_db
  // ---------------------------------------------------------------------------

  const SampleData: seq<SeedRecord> := [
    SeedRecord("happy", Row("Feeling or showing pleasure or contentment.",
      "joyful, cheerful, content", "sad, unhappy, miserable", "smile, laughter, positivity")),
    SeedRecord("sad", Row("Feeling or showing sorrow; unhappy.",
      "unhappy, sorrowful, melancholy", "happy, joyful, cheerful", "cry, tears, depression")),
    SeedRecord("fast", Row("Moving or capable of moving at high speed.",
      "quick, rapid, swift", "slow, sluggish, lethargic", "speed, race, velocity")),
    SeedRecord("strong", Row("Having the power to move heavy weights or perform physically demanding tasks.",
      "powerful, sturdy, muscular", "weak, frail, feeble", "strength, endurance, resilience")),
    SeedRecord("bright", Row("Giving out or reflecting a lot of light; intelligent.",
      "shiny, radiant, intelligent", "dull, dim, dark", "light, clever, brilliance")),
    SeedRecord("calm", Row("Not showing or feeling nervousness, anger, or strong emotions.",
      "peaceful, composed, relaxed", "agitated, nervous, restless", "tranquil, serenity, patience")),
    SeedRecord("brave", Row("Ready to face and endure danger or pain; showing courage.",
      "courageous, valiant, fearless", "cowardly, fearful, timid", "hero, bold, daring")),
    SeedRecord("angry", Row("Feeling or showing strong annoyance, displeasure, or hostility.",
      "mad, furious, irate", "calm, happy, pleased", "rage, temper, frustration")),
    SeedRecord("smart", Row("Having or showing a quick-witted intelligence.",
      "intelligent, clever, bright", "stupid, foolish, dull", "brainy, sharp, genius")),
    SeedRecord("slow", Row("Moving or operating at a low speed.",
      "sluggish, unhurried, lazy", "fast, quick, rapid", "delay, gradual, crawl"))
  ]

  /** The seed data names ten distinct words. */
  lemma SampleWordsDistinct()
    ensures |SampleData| == 10
    ensures forall i, j :: 0 <= i < j < |SampleData| ==> SampleData[i].word != SampleData[j].word
  {
  }

  /** In a freshly created table, init_db makes every seed word findable with its seed fields. */
  lemma InitDbFindsSeedWords(i: nat)
    requires i < |SampleData|
    ensures QueryWord(SeedAll(map[], SampleData), SampleData[i].word)
         == Some(ToEntry(SampleData[i].word, SampleData[i].row))
  {
    SampleWordsDistinct();
    SeededWordFound(map[], SampleData, i);
  }

  /** Looking up "happy" after init_db gives its meaning and the synonyms joyful, cheerful, content. */
  lemma HappyLookup()
    ensures QueryWord(SeedAll(map[], SampleData), "happy").Some?
    ensures QueryWord(SeedAll(map[], SampleData), "happy").value.meaning
         == "Feeling or showing pleasure or contentment."
    ensures QueryWord(SeedAll(map[], SampleData), "happy").value.synonyms
         == ["joyful", "cheerful", "content"]
  {
    InitDbFindsSeedWords(0);
    HappySynonyms(SampleData[0].row.synonyms);
  }

  /** The stored synonyms of "happy" split into three words. */
  lemma HappySynonyms(stored: string)
    requires stored == "joyful, cheerful, content"
    ensures Split(stored, Delim) == ["joyful", "cheerful", "content"]
  {
    var w0, w1, w2 := "joyful", "cheerful", "content";
    assert stored == w0 + Delim + w1 + Delim + w2;
    SplitThree(w0, w1, w2);
  }

  /** Three comma-free words joined with ", " split back into those three words. */
  lemma SplitThree(a: string, b: string, c: string)
    requires forall k :: 0 <= k < |a| ==> a[k] != ','
    requires forall k :: 0 <= k < |b| ==> b[k] != ','
    requires forall k :: 0 <= k < |c| ==> c[k] != ','
    ensures Split(a + Delim + b + Delim + c, Delim) == [a, b, c]
  {
    CommaSpaceUnbordered();
    NoCommaNoDelimiter(a);
    NoCommaNoDelimiter(b);
    NoCommaNoDelimiter(c);
    var ws := [a, b, c];
    assert ws[1..] == [b, c];
    assert [b, c][1..] == [c];
    assert Join([c], Delim) == c;
    assert Join([b, c], Delim) == b + Delim + c;
    assert Join(ws, Delim) == a + Delim + (b + Delim + c);
    assert a + Delim + b + Delim + c == a + Delim + (b + Delim + c);
    SplitJoin(ws, Delim);
  }

  // ---------------------------------------------------------------------------
  // The table itself
  // ---------------------------------------------------------------------------

  /**
    The `words` table. `rows` maps each word to its other columns (the UNIQUE
    constraint on `word` is the map's single value per key); `order` lists the
    words in the order their rows were created.
   */
  class WordTable {
    var rows: map<string, Row>
    var order: seq<string>

    /** Each row's word is listed once, and only words with a row are listed. */
    ghost predicate Valid()
      reads this
    {
      && (forall w :: w in rows <==> w in order)
      && Distinct(order)
    }

    /** CREATE TABLE on a database that has none: an empty table. */
    constructor ()
      ensures Valid() && rows == map[] && order == []
    {
      rows := map[];
      order := [];
    }

    /** INSERT OR IGNORE of one record; `inserted` tells whether a row was created. */
    method InsertOrIgnore(rec: SeedRecord) returns (inserted: bool)
      requires Valid()
      modifies this
      ensures Valid()
      ensures inserted <==> rec.word !in old(rows)
      ensures rows == Insert(old(rows), rec)
      ensures order == old(order) + (if inserted then [rec.word] else [])
    {
      inserted := rec.word !in rows;
      if inserted {
        rows := rows[rec.word := rec.row];
        order := order + [rec.word];
      }
    }

    /** `executemany` of INSERT OR IGNORE: the records are inserted one after another. */
    method Seed(batch: seq<SeedRecord>)
      requires Valid()
      modifies this
      ensures Valid()
      ensures rows == SeedAll(old(rows), batch)
      ensures order == old(order) + NewWords(old(rows), batch)
    {
      var i := 0;
      while i < |batch|
        invariant 0 <= i <= |batch|
        invariant Valid()
        invariant rows == SeedAll(old(rows), batch[..i])
        invariant order == old(order) + NewWords(old(rows), batch[..i])
      {
        assert batch[..i + 1][..i] == batch[..i];
        var _ := InsertOrIgnore(batch[i]);
        i := i + 1;
      }
      assert batch[..|batch|] == batch;
    }

    /** `init_db`: the table exists (kept if it did) and the sample data is seeded into it. */
    method InitDb()
      requires Valid()
      modifies this
      ensures Valid()
      ensures rows == SeedAll(old(rows), SampleData)
      ensures order == old(order) + NewWords(old(rows), SampleData)
      ensures forall i :: 0 <= i < |SampleData| ==> SampleData[i].word in rows
    {
      Seed(SampleData);
      SeedAllKeys(old(rows), SampleData);
    }

    /** `get_all_words`: every word of the table, each once. */
    function AllWords(): (ws: seq<string>)
      reads this
      requires Valid()
      ensures forall w :: w in ws <==> w in rows
      ensures Distinct(ws)
    {
      order
    }
  }
}
