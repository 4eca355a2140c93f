# Dictionary lookup: a Dafny model

This project models the core of a small dictionary web application. The
application keeps a `words` table in SQLite. Each row holds a word (the unique
key), its meaning, and three list columns (synonyms, antonyms, related terms)
stored as text delimited by `", "`. At start-up, `init_db` creates the table if
it is missing and seeds ten sample rows with `INSERT OR IGNORE`. The single
route `/` takes the submitted word and lower-cases and strips it. It then looks
the word up by exact key and splits the list columns into lists. When the word
is not in the table, the route asks `difflib.get_close_matches` for the one
closest word of the table.

The model has four modules:

- `Wrappers` (wrappers.dfy): `Option`, which stands for Python's `None` or a value.
- `PyStr` (pystr.dfy): the Python string methods the code relies on.
  `Find` is `str.find`. `Split` is `str.split(sep)`, proved to join back with
  `Join` (`sep.join`). `Lower` and `Strip` are `str.lower()` and `str.strip()`.
- `WordStore` (wordstore.dfy): the table. `WordTable` is a class whose
  `rows: map<string, Row>` holds the rows by word and whose `order` lists the
  words in row-creation order. Its methods `InsertOrIgnore`, `Seed`
  (`executemany`) and `InitDb` change the table. Each is proved against the
  specification functions `Insert`, `SeedAll` and `NewWords`, and the lemmas
  state what seeding promises. `QueryWord` is `query_word`. `AllWords` is
  `get_all_words`.
- `Routes` (routes.dfy): the decision rule of `index`, as the pure function
  `Index`. It maps the table, the word list and the request to the pair
  (result, suggestion) that is handed to the template. The close-match routine
  is a parameter. All the model assumes of it (`ValidMatcher`) is that it
  returns at most one word and that this word is one of the candidates.

Two choices where a reader might expect otherwise; the model follows the code:

- An empty list column splits to `[""]`, not `[]`, because that is what
  `str.split(", ")` returns (`SplitEmpty`).
- A seed row is not checked for a present meaning. The code only declares
  `meaning TEXT NOT NULL`, and every seed row supplies one.

## Model

| member | source | states |
|---|---|---|
| `PyStr.Split` | app.py:106-108 | `str.split(", ")` returns at least one part. The parts joined with the separator give back the stored text, and no part contains the separator. |
| `PyStr.SplitJoin` | app.py:106-108 | Splitting a join gives back the parts, when there is at least one part, no part contains the separator and the separator has no border (`", "` has none). |
| `PyStr.SplitEmpty` | app.py:106-108 | An empty column splits to one empty part, `[""]`. |
| `PyStr.Lower` | app.py:132 | `lower()` keeps the length and leaves no upper-case letter. Each upper-case letter becomes the letter 32 code points above it (its lower-case form). Every other character is kept, so whitespace stays whitespace. |
| `PyStr.Strip` | app.py:132 | `strip()` returns a slice of its input that is empty or starts and ends with a non-space. Everything cut off before and after it is whitespace. |
| `PyStr.StripIdempotent` | app.py:132 | Stripping a stripped string changes nothing. |
| `PyStr.StripEmptyIff` | app.py:132-133 | A string strips to `""` exactly when all its characters are whitespace. |
| `WordStore.SeedAll` | app.py:80-83 | Seeding keeps every old key and makes every word of the batch a key. |
| `WordStore.ToEntry` | app.py:103-109 | The dict built from a row carries the word and the stored meaning. Each list column becomes at least one part, the parts join back with `", "` to the column, and no part of any list contains `", "`. |
| `WordStore.Insert` | app.py:80-83 | INSERT OR IGNORE adds the record's word to the keys and never changes an existing row. An absent word gets the record's row. |
| `WordStore.SeedAllKeepsExisting` | app.py:80-83 | Seeding never overwrites: a word already in the table keeps its original row. |
| `WordStore.SeedAllKeys` | app.py:80-83 | After seeding, the keys are exactly the old keys plus the words of the batch. |
| `WordStore.SeedAllPresent` | app.py:80-83 | Seeding a table that already holds every word of the batch changes no row and creates no row. |
| `WordStore.SeedAllIdempotent` | app.py:80-83 | Seeding twice gives the same table as seeding once, and the second seed creates no row. |
| `WordStore.FirstWriteWins` | app.py:80-83 | Within one batch, a word absent from the table gets the row of its first record, whatever later records say. |
| `WordStore.NewWordsFresh` | app.py:16-25 | The rows a seed creates are for distinct words that were not yet keys. The keys afterwards are the old keys plus exactly those words, so no word ever has two rows. |
| `WordStore.QueryWord` | app.py:92-110 | Lookup is by exact key: the result is `None` exactly when the word is not a key. On a hit it carries the word and the stored meaning. Each list has at least one element and joins back with `", "` to the stored column. No element of the synonyms, antonyms or related terms contains `", "`. |
| `WordStore.SeededWordFound` | app.py:97-109 | After seeding, the first record of a word not already present is found by lookup. The lookup gives its meaning and the `", "`-split of each of its columns. |
| `WordStore.SampleWordsDistinct` | app.py:28-78 | The seed data holds ten records with ten distinct words. |
| `WordStore.InitDbFindsSeedWords` | app.py:28-83 | On a new table, `init_db` makes every seed word findable with exactly its seed fields. |
| `WordStore.HappyLookup` | app.py:29-30 | After `init_db`, looking up `"happy"` gives its meaning and the synonyms `["joyful", "cheerful", "content"]`. |
| `WordStore.WordTable.constructor` | app.py:16-25 | A newly created table is empty and consistent. |
| `WordStore.WordTable.InsertOrIgnore` | app.py:80-83 | One INSERT OR IGNORE. It reports whether a row was created, which happens exactly when the word was absent. The new contents are `Insert` of the old ones, and a created word is appended to the creation order. |
| `WordStore.WordTable.Seed` | app.py:80-83 | `executemany` inserts the batch one record at a time. The table becomes `SeedAll` of the old table, and the creation order gains `NewWords` of the batch. Each word is listed once. |
| `WordStore.WordTable.InitDb` | app.py:11-86 | `init_db` keeps an existing table and seeds the sample data into it. Every seed word is then a key. |
| `WordStore.WordTable.AllWords` | app.py:113-120 | `get_all_words` lists every word of the table, each exactly once, and nothing else. |
| `Routes.FormWord` | app.py:132 | The submitted text is the form's `word` field, or `""` when the form has none. |
| `Routes.Normalize` | app.py:132 | The looked-up word is the lower-cased submission with its leading and trailing whitespace cut off: a slice of `Lower(raw)`, and every character of the submission before and after that slice is whitespace. It has no upper-case letter and neither starts nor ends with whitespace. |
| `Routes.NormalizeIdempotent` | app.py:132 | Normalising a normalised word changes nothing. |
| `Routes.NormalizeEmptyIff` | app.py:132-133 | A submission normalises to the empty word exactly when it is all whitespace. |
| `Routes.NormalizeExample` | app.py:132 | `"  HAPPY  "` is looked up as `"happy"`. |
| `Routes.Index` | app.py:126-143 | A non-POST request or a blank word gets neither a result nor a suggestion. A non-blank word gets the lookup's result. After a miss the suggestion is exactly the matcher's first word, or nothing when the matcher returns none. A suggestion is always one of the listed words and comes only after a miss, so result and suggestion are never both set. |
| `Routes.IndexNormalizes` | app.py:132-134 | The route answers a submission exactly as it answers the submission's normalised form. |
| `Routes.BlankIgnoresStore` | app.py:133 | A blank submission touches neither the table nor the matcher. The answer is `(None, None)` whatever either of them holds. |
| `Routes.HitIgnoresMatcher` | app.py:134-141 | On a hit for a non-blank word the matcher is not consulted. Every matcher gives the same answer: the entry and no suggestion. |
| `Routes.SuggestionIsTableWord` | app.py:137-141 | Against a consistent table, with the list from `get_all_words`, every suggestion is a word that a lookup would find. |
| `Routes.HappySubmission` | app.py:132-134 | After `init_db` on a new table, submitting `"  HAPPY  "` shows the entry for `"happy"` with its synonyms and no suggestion. |

## Left out

- Opening, committing and closing SQLite connections (app.py:12-13, 85-86, 94-99, 115-119): an in-memory map stands for the database file.
- The `id INTEGER PRIMARY KEY AUTOINCREMENT` column: no id is stored. The `order` field keeps the order in which rows were created, and nothing reads the ids.
- The order of `SELECT word FROM words`: SQL leaves it open. The model returns the creation order, and the rest of the model relies only on "every key, each once".
- The internals of `difflib.get_close_matches`, which uses a floating-point similarity ratio with a 0.6 cutoff. The matcher is a parameter, constrained only by `ValidMatcher`.
- Flask: the app object, routing, reading `request.form` as a web request, and `render_template`. The form is a plain `map<string, string>` and the rendered page is the `Response` pair.
- The `__main__` block that prints a message and starts the server.
- Database errors: a `sqlite3` error raised inside `query_word` or `get_all_words` (for example when the table is missing) propagates out of `index` as a server error. The model has no database and no error path for it.
- NULL list columns: the fields are modelled as non-null strings, and every seed row supplies them. On NULL, `.split` would raise in Python.
- `PyStr.Lower`: only ASCII and Latin-1 upper-case letters are lower-cased. Python's full Unicode case mapping, including characters that lower-case to two characters, is not modelled. `strip()` uses Python's complete whitespace set.
- `WordStore.HappyLookup`: it states the meaning and the synonyms of `"happy"` only. The antonyms and related terms follow from `InitDbFindsSeedWords` in the same way.
