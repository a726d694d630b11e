# Path-keyed JSON translation, modelled in Dafny

The modelled program is `localization/translate.py`. It translates the text fields of JSON game data files into Chinese. One file is handled as follows:

1. A recursive walk visits every string held under one of eight field names (`name`, `desc`, `extdesc`, `flavor`, `title`, `actname`, `actdesc`, `verb`) whose text is not all whitespace. It records the stripped text under a **path key**. The key joins the object keys with `_` and writes array indices as `[i]`, e.g. `data_clashes[0]_name`.
2. The resulting map is cut into chunks of at most 100 entries.
3. Each chunk is sent to a translation service, together with a JSON schema that names every key of the chunk.
4. The answers are merged with `dict.update`.
5. The same walk, run in replace mode, puts every non-empty translation back at the field its key names.

The model covers the following, in the modules named:

- **The walk in both modes** (`Traverse`). Extraction is modelled as the sequence of writes the walk makes. Replacement returns a new document instead of assigning in place.
- **A walk-independent description of a document** (`Locations`):
  - its *slots*: each string under a translatable name, with the route of keys and indices leading to it;
  - its *skeleton*: the document with those strings blanked.
- **Path keys** (`PathKey`), including a decoder. It shows that routes whose object keys are non-empty and free of `_` and `[` never share a key. Three small examples show how keys collide otherwise.
- **Insertion-ordered dictionaries** (`Dicts`):
  - `d[k] = v` as `Put`;
  - `dict.update` as `Update`;
  - lookup as `Get`.
- **`chunk_dict`** and the printed chunk count `-(n // -100)` (`Chunking`).
- **The response schema** built for a chunk (`Schema`).
- **The per-file job** (`FileJob`). The translation service is a function parameter. Each request ends in one of three ways:
  - a parsed JSON object of translations;
  - a response that is not JSON, which is skipped;
  - an exception, which abandons the file.

The properties proved are these:

- Extraction records exactly the live slots, each under its path key with its stripped text (`ExtractExact`). When keys collide, the last write wins (`ExtractCollisions`).
- Replacement changes nothing but slot texts. It is characterised completely by the skeleton and the retexted slots (`ReplaceCharacterised`).
- The extract → translate → replace round trip is proved (`ExtractTranslateReplace`).
- The chunks concatenate back to the map, and their number is ceil(n / 100).
- The schema requires exactly the chunk's keys.
- A file is written exactly when no request raises. A field in a chunk whose response could not be parsed keeps its original text, while the fields of answered chunks take their translations (`PartialFailure`).

## Model

| member | source | states |
|---|---|---|
| Dicts.Get | localization/translate.py:64 | `key in d` is false exactly when the lookup finds nothing; otherwise the value found is stored under that key |
| Dicts.Put | localization/translate.py:61 | after `d[k] = v`, `k` maps to `v` and every other key keeps its value |
| Dicts.PutKeys | localization/translate.py:61 | assigning to a present key keeps the key order; a new key is appended last |
| Dicts.PutWf | localization/translate.py:61 | assignment never makes a key appear twice |
| Dicts.Update | localization/translate.py:176 | after `d.update(e)`, each key of `e` holds the value written last under it in `e`, and every other key keeps its value in `d` |
| Dicts.UpdateWf | localization/translate.py:176 | the keys after `update` are the old keys followed by the new ones in first-write order, each once |
| Dicts.UpdateConcat | localization/translate.py:176 | updating with two batches one after the other equals updating with their concatenation |
| Dicts.UpdateOfDistinct | localization/translate.py:79-81 | writing entries with distinct keys into `{}` rebuilds them in order |
| JsonDoc.Strip | localization/translate.py:58 | `v.strip()` is empty exactly when `v` is all whitespace (Python's `isspace` set); otherwise it neither starts nor ends with whitespace |
| JsonDoc.StripIsSlice | localization/translate.py:61 | the stripped text is a contiguous slice of the original, with only whitespace cut from either end |
| PathKey.DecimalRoundTrip | localization/translate.py:73 | the index written inside `[...]` is a non-empty digit string without a leading zero, and it reads back as the index |
| PathKey.DecodeEncode | localization/translate.py:56 | splitting a path key at its last separator recovers the route, when object keys are non-empty and hold no `_` or `[` |
| PathKey.EncodeInjective | localization/translate.py:73 | two such routes have the same path key exactly when they are the same route |
| PathKey.UnderscoreKeyCollides | localization/translate.py:56 | the key `a_b` and the nested keys `a`, `b` produce the same path key |
| PathKey.BracketKeyCollides | localization/translate.py:73 | an object key `x[0]` collides with element 0 of an array under `x` |
| PathKey.EmptyKeyCollides | localization/translate.py:56 | an empty key at the root leaves the prefix empty, so its child's key equals a root key |
| ExtractFacts.WritesAreExpected | localization/translate.py:53-75 | extraction writes one entry per slot with non-blank text, in document order: the slot's path key and its stripped text |
| ExtractFacts.ExtractExact | localization/translate.py:77-82 | for a document whose object keys are distinct and safe, the map has one entry per live slot and no other. It has no repeated key, its size is the number of live slots, and each live slot's key maps to its stripped text |
| ExtractFacts.ExtractCollisions | localization/translate.py:77-82 | for any document, the keys are the live slots' path keys in first-occurrence order, and each holds the text written last under it |
| ExtractFacts.UnderscoreCollisionExample | localization/translate.py:56-61 | `{"a_b":{"name":"x"},"a":{"b":{"name":"y"}}}` extracts to the single entry `a_b_name: y`, so the text `x` is lost |
| ExtractFacts.ExtractEmpty | localization/translate.py:139 | the map is empty exactly when no translatable field holds non-blank text |
| ReplaceFacts.ReplaceSlots | localization/translate.py:62-68 | after replacement the slots are the same, with the same routes in the same order. A slot's text becomes the map's value under its key when the text is non-blank and that value is present and non-empty; otherwise the text is unchanged |
| ReplaceFacts.ReplaceSkeleton | localization/translate.py:53-75 | replacement leaves everything but the slot texts unchanged: keys, order, arrays and non-translatable values |
| ReplaceFacts.ReplaceCharacterised | localization/translate.py:84-87 | a document is the replacement result exactly when it has the input's skeleton and the input's slots with the texts updated as above |
| ReplaceFacts.ReplaceWithoutHits | localization/translate.py:64 | when no live field's key has a non-empty value in the map, the document is unchanged |
| ReplaceFacts.ReplaceEmptyMap | localization/translate.py:84-87 | replacing with an empty map changes nothing |
| ReplaceFacts.ReplaceNothingExtracted | localization/translate.py:139-147 | a document with nothing to extract is unchanged by replacement with any map, so copying it equals translating it |
| ReplaceFacts.ExtractTranslateReplace | localization/translate.py:137 | when each extracted text `t` is translated to `f(t)`, every live field (safe distinct keys) becomes `f(t)` if that is non-empty and keeps its text otherwise; no other part changes |
| Chunking.ChunkDict | localization/translate.py:25-32 | the chunks concatenate back to the dict, in order. Each holds 1 to `size` entries, and all but the last hold exactly `size`. A size of 0 yields no chunk |
| Chunking.ChunkDictCount | localization/translate.py:25-32 | there are ceil(n / size) chunks |
| Chunking.FloorDiv | localization/translate.py:150 | Python's `//` rounds toward negative infinity, also for a negative divisor |
| Chunking.ChunkCountMatches | localization/translate.py:150 | `-(n // -size)` equals the number of chunks `chunk_dict` yields |
| Chunking.ChunkWf | localization/translate.py:25-32 | a chunk of a dict without repeated keys has no repeated key |
| Chunking.ChunksDisjoint | localization/translate.py:25-32 | two different chunks of a dict never share a key |
| Chunking.FlattenedKeyChunked | localization/translate.py:156 | every key of the map lies in some chunk |
| Schema.ChunkSchema | localization/translate.py:92-102 | the schema has type `object` and `required` lists the chunk's keys in order. A key has a property exactly when it is in the chunk: a string, described by the text to translate |
| Schema.ChunkSchemaKeys | localization/translate.py:99-101 | the properties are named in the order their keys first appear in the chunk |
| Schema.ChunkSchemaInOrder | localization/translate.py:99-102 | for a chunk with distinct keys, property `i` is entry `i`'s key with a string description of entry `i`'s text |
| Schema.ConformsToChunk | localization/translate.py:169 | a response keeps to the chunk's schema exactly when its keys are the chunk's keys |
| FileJob.ConformingAnswersStay | localization/translate.py:169 | an answer that keeps to its chunk's schema names only keys of that chunk, each once |
| FileJob.MergeFromSpec | localization/translate.py:154-185 | the chunk loop finishes exactly when no request raises. It then holds all answers merged in chunk order, with unparsable responses adding nothing. Otherwise it stops at the first chunk that raised |
| FileJob.NotStarted | localization/translate.py:126-133 | without a client nothing happens, whatever the service does; unreadable input fails the job |
| FileJob.NothingToTranslate | localization/translate.py:139-147 | a file with no fields to translate is written unchanged, with no chunks, whatever the service would answer |
| FileJob.FileOutcome | localization/translate.py:122-204 | a readable file is written exactly when no request raises, and the output is the input with the merged answers put in. Otherwise the job fails at the first raising chunk |
| FileJob.WrittenShape | localization/translate.py:191-198 | a written file differs from the input only in the texts of translatable fields, each updated from the merged map under its path key |
| FileJob.FileChunking | localization/translate.py:149-156 | the fields go into ceil(n / 100) chunks of 1 to 100 entries, all full but the last, which concatenate back to the extracted map |
| FileJob.SentSchemaDistinct | localization/translate.py:99-101 | the schema sent with a chunk of a file lists each of the chunk's keys once in `required`, and its properties are named by exactly those keys in the same order |
| FileJob.SlotChunked | localization/translate.py:156 | every field extraction records is sent in some chunk |
| FileJob.MergedLookup | localization/translate.py:176 | if every answer names only keys of its own chunk, each at most once, the merged map holds, for a key of chunk `l`, exactly what chunk `l`'s answer holds. An answer may leave keys out |
| FileJob.PartialFailure | localization/translate.py:174-182 | if no request raises and every answer names only keys of its own chunk, each at most once, a field in an unparsable chunk keeps its original text. A field in an answered chunk takes that chunk's non-empty translation, or keeps its text when the answer leaves its key out or leaves it empty |
| FileJob.HundredFiftyFields | localization/translate.py:149-156 | 150 fields give two chunks, of 100 and 50, and the printed count is 2 |

## Left out

- The request to the translation model is left out: model name, temperature, prompt text and the `json.dumps` of the chunk (lines 104-117, 163-171). The service is a function parameter, which is given the chunk's position and the chunk. Prompt and schema are functions of the chunk.
- Parsing the response (`json.loads`, line 175) is folded into the three outcomes.
  - A response that parses to something other than an object of strings is modelled either as an exception (as `dict.update` raises for most such values) or as an object. `update` accepting a list of pairs is not modelled, and neither are non-string translation values.
- File reading and writing are left out: `open`, `json.load` and `json.dump` with their encoding and indentation, and `os.makedirs`. Unreadable input is the `None` case. An exception while writing is not modelled.
- Logging (`print`) and the pause between requests (`time.sleep`, lines 187-189) have no effect on the result and are left out.
- Client initialisation (lines 18-22) is a boolean parameter.
- `translate_all_json_files` and the directory walk (lines 207 on) are not part of this model.
- `chunk_dict` with a negative size raises `ValueError` inside `islice`. The size is a natural number here, and the program only ever passes 100.
- JSON numbers are `real`. Number formatting and the distinction between integers and floats do not matter to the walk.
- The walk mutates the document in place; the model returns the new document. In replace mode, the recursion on line 68 walks the old string, which does nothing either way.
- A JSON object in the model may hold a key twice, which `json.load` would collapse to the last value. Results that need distinct keys say so through `WellKeyed`.
- ExtractFacts.ExtractExact: requires object keys to be distinct, non-empty and free of `_` and `[`. The code does not make path keys unique, although its comments call them unique. Without that hypothesis two fields can share a key (`UnderscoreCollisionExample`), and `ExtractCollisions` states what happens then.
- ReplaceFacts.ExtractTranslateReplace: carries the same hypothesis, for the same reason.
- FileJob.PartialFailure: assumes each answer names only keys of the chunk it answers and holds each key once; answers that leave keys out are covered. A schema-conforming answer meets this (`ConformingAnswersStay`). A service that answers with another chunk's keys can overwrite that chunk's translations; `MergeFromSpec` and `FileOutcome` still describe the merge exactly in that case.
- FileJob.MergedLookup: carries the same hypothesis, for the same reason.
