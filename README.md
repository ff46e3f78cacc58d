# Chinese locale sync, modelled in Dafny

`web/scripts/sync_zh_locale.py` keeps the web front-end's Chinese table
(`zh-CN.json`) in step with the English one (`en.json`). It also keeps a
snapshot of the English text each Chinese entry was made from
(`.zh-sync-meta.json`). One run walks the English keys in sorted order. Each
key gets one of three texts:

- its fixed entry from `KEY_OVERRIDES`;
- else the stored Chinese text, when that is a non-blank string and the
  snapshot shows the English text has not changed;
- else a machine translation, falling back to the English text.

The English table then becomes the new snapshot. The translator skips blank
text. Otherwise it makes up to three requests to a translation service. It
joins the string heads of the reply's segments, strips the result, and
returns the first non-empty one. If no request yields one, it returns the
text itself.

The project holds five modules:

- `Wrappers` (`wrappers.dfy`): `Option`.
- `Json` (`json.dfy`): the JSON values the script inspects.
- `Strings` (`strings.dfy`): Python's `str.strip()` / `str.isspace()`
  whitespace set, and the code-point order `sorted()` uses on keys.
- `Translate` (`translate.dfy`): the translation wrapper, with the service as
  a parameter `fetch(text, attempt)`.
- `LocaleSync` (`sync.dfy`): the merge loop, its specification
  `SyncedTable` / `TranslatedKeys`, and what repeated runs do.

`SyncWith` takes the override table as a parameter. `Sync` is the script's
run with its fixed `KeyOverrides`. The cross-run lemmas hold for any
override table.

## Model

| member | source | states |
|---|---|---|
| Strings.TrimStartSpec | web/scripts/sync_zh_locale.py:75-81 | Trimming the start drops a prefix made only of whitespace, and what is left is empty or starts with non-whitespace |
| Strings.TrimEndSpec | web/scripts/sync_zh_locale.py:75-81 | Trimming the end drops a suffix made only of whitespace, and what is left is empty or ends with non-whitespace |
| Strings.StripSpec | web/scripts/sync_zh_locale.py:75-81 | `strip()` returns a slice of its input with whitespace-free ends, and it returns the empty string exactly when the input is all whitespace (the `not text.strip()` test) |
| Strings.LexTotal | web/scripts/sync_zh_locale.py:103 | The key order that `sorted` uses is total |
| Strings.LexTransitive | web/scripts/sync_zh_locale.py:103 | The key order is transitive |
| Strings.LexAntisymmetric | web/scripts/sync_zh_locale.py:103 | The key order is antisymmetric, so equal-ranked keys are equal |
| Strings.LeastExists | web/scripts/sync_zh_locale.py:103 | Every non-empty set of keys has exactly one least key |
| Strings.IncreasingIsDistinct | web/scripts/sync_zh_locale.py:103 | A strictly increasing key list has no repeats |
| Strings.SortedKeys | web/scripts/sync_zh_locale.py:103 | `sorted(en.keys())` is strictly increasing, has exactly the keys of the set, and has one entry per key |
| Translate.JoinAppend | web/scripts/sync_zh_locale.py:75-81 | Joining the reply's segments distributes over concatenation of segment lists |
| Translate.JoinSkipsOtherParts | web/scripts/sync_zh_locale.py:75-81 | Segments that are not a non-empty list headed by a string contribute nothing to the join |
| Translate.ExtractedIsStripped | web/scripts/sync_zh_locale.py:74-83 | A translation taken from a reply is non-empty, not blank, and has no whitespace at either end |
| Translate.MalformedReplyYieldsNothing | web/scripts/sync_zh_locale.py:74 | A reply that is not a non-empty list whose first element is a list yields no translation |
| Translate.TranslateWithRetries | web/scripts/sync_zh_locale.py:55-89 | The retry loop returns the blank text unchanged, else the first attempt's translation among attempts 0, 1 and 2, else the text |
| Translate.NoTranslationIffAllAttemptsFail | web/scripts/sync_zh_locale.py:70-89 | No translation is found from an attempt on exactly when every remaining attempt up to the third fails or yields nothing |
| Translate.TranslationIsFromEarliestAttempt | web/scripts/sync_zh_locale.py:70-83 | The translation returned comes from some attempt below three, and every earlier attempt yielded nothing |
| Translate.FirstTranslationNotBlank | web/scripts/sync_zh_locale.py:82-83 | A translation found by the retry loop is never blank |
| Translate.BlankTextIsNotSent | web/scripts/sync_zh_locale.py:56-57 | Blank text is returned as is, and the result does not depend on the service at all |
| Translate.FailedAttemptsReturnText | web/scripts/sync_zh_locale.py:84-89 | When all three attempts fail, the text itself is returned |
| Translate.TranslationBlankIffTextBlank | web/scripts/sync_zh_locale.py:55-89 | The wrapper's result is blank exactly when its input is blank |
| Translate.FallbackIsRedundant | web/scripts/sync_zh_locale.py:121 | The wrapper returns the empty string only for the empty string, so `translated or en_value` never falls back to a different text |
| LocaleSync.MergeKey | web/scripts/sync_zh_locale.py:104-123 | One key's text is the override, else the reusable stored text, else the translation or the English text; it counts as reused exactly when the translator is not called |
| LocaleSync.SyncedTableKeys | web/scripts/sync_zh_locale.py:103-122 | The new table has exactly the English keys, so entries for keys gone from English are dropped; translated keys are English keys |
| LocaleSync.TablesStep | web/scripts/sync_zh_locale.py:105-122 | Each loop step writes the key's final text and its English source, and leaves the other entries as they were |
| LocaleSync.FreshStep | web/scripts/sync_zh_locale.py:103 | Each loop step adds one new key, because the sorted keys do not repeat |
| LocaleSync.CountsStep | web/scripts/sync_zh_locale.py:108-123 | Each loop step adds one to exactly one counter: translated when the key needs the translator, reused otherwise |
| LocaleSync.LoopDone | web/scripts/sync_zh_locale.py:103-123 | After all keys, the tables are the synced table and the English table, and the counters are the sizes of the translated keys and of the rest |
| LocaleSync.MergeInOrder | web/scripts/sync_zh_locale.py:103-124 | The loop over distinct keys covering the English table builds the synced table and the snapshot, and counts translated and reused keys |
| LocaleSync.SyncWith | web/scripts/sync_zh_locale.py:92-124 | One run writes the synced table and snapshots the English table, in sorted key order, with counts of translated keys and of reused keys |
| LocaleSync.Sync | web/scripts/sync_zh_locale.py:92-133 | One run with the fixed overrides, where reused plus translated is the English key count (the reported total) |
| LocaleSync.OverridesNotBlank | web/scripts/sync_zh_locale.py:23-43 | Every override text is non-empty and starts with non-whitespace |
| LocaleSync.RerunTranslatesChangedOrBlank | web/scripts/sync_zh_locale.py:111-123 | On a later run over what a run wrote, a key goes to the translator exactly when it is not overridden and is new, has changed English text, or was written blank |
| LocaleSync.BlankOnlyFromBlankEnglish | web/scripts/sync_zh_locale.py:114-121 | With the real translator, a non-overridden key is written blank only when its English text is blank, and then that English text is what is written |
| LocaleSync.SyncedNotBlank | web/scripts/sync_zh_locale.py:103-122 | With the real translator and the fixed overrides, every key with non-blank English text gets non-blank Chinese text |
| LocaleSync.RerunSendsOnlyBlank | web/scripts/sync_zh_locale.py:111-123 | A rerun on unchanged English text hands only blank texts to the translator, and the translator returns each of those unchanged whatever the service would answer, so no request decides it |
| LocaleSync.AllOverriddenIgnoresStored | web/scripts/sync_zh_locale.py:103-109 | When every English key is overridden, the run writes the same table and translates nothing, whatever the stored tables and the translator are |
| LocaleSync.ResyncKeyStable | web/scripts/sync_zh_locale.py:111-123 | On a rerun on unchanged English text, each key keeps the text the first run wrote |
| LocaleSync.ResyncIsStable | web/scripts/sync_zh_locale.py:92-129 | The sync is idempotent: a rerun on unchanged English text over the written tables writes the same Chinese table, whatever the service answers |

## Left out

- File reading and writing are not modelled: `load_json` with its fallback for a missing or unparsable file (46-52), and the JSON dumps of both tables (126-129). The tables are map parameters and results. `AsJson` models a written string table as it reads back.
- Key order on disk: the order of the written dictionaries is modelled as `SyncWith`'s `order` result, but not the JSON text formatting.
- The HTTP request, its URL encoding and its 15-second timeout (59-73) are not modelled. Each attempt is the `fetch(text, attempt)` parameter. Any exception, including a reply that does not decode, is the response `Failed`. Because `fetch` is a function, two keys with the same English text get the same answers within one run; the real service does not promise that, but no lemma here depends on it.
- Sleeps and printed messages (86-87, 124, 131-133) are not modelled. They do not change any result.
- JSON numbers in replies, in the stored Chinese table and in the snapshot are integers only, because floating point is not modelled. The script only asks whether such a value is a list or a string, or compares it with a string (74-80, 114), so this changes no outcome.
- Non-string English values are not modelled: the English table is `map<string, string>`. The script fails on such a value only when its key reaches the translator (120, then 56). An overridden key (105-109), or a reused key whose snapshot equals the value and whose stored Chinese text is a non-blank string (114-118), is written through without error; the model cannot represent those keys. The stored Chinese table and the snapshot are `map<string, Json.Value>`, so the `isinstance(current_zh, str)` check and the `==` against any JSON value are modelled.
- Top-level JSON files that are not objects are not modelled. A non-object `en.json` makes the script fail at `en.keys()` (103). A non-object Chinese table or snapshot fails at `.get(key)` (111-112), on the first key that is not overridden. When every English key is overridden, that line is never reached and the run succeeds; the stored tables then do not affect the output (`AllOverriddenIgnoresStored`), so any map models that run.
