/**
  The per-file job, `translate_file_level` (translate.py lines 122-204),
  with the translation service as a parameter: extract the fields, cut
  them into chunks of at most 100, ask the service for each chunk in turn,
  merge the answers, and write the document back with the translations
  put in. File reading and writing, logging and the pause between
  requests are not modelled.
 */
module FileJob {
  import opened Wrappers
  import opened Dicts
  import opened JsonDoc
  import opened PathKey
  import opened Traverse
  import opened Locations
  import opened Chunking
  import opened Schema
  import opened ExtractFacts
  import opened ReplaceFacts

  const MaxFieldsPerChunk: nat := 100

  /**
    How the request for one chunk ends: the response text parsed as a JSON
    object of translations; a response that is not valid JSON, which is
    logged and the chunk skipped; or an exception (an API error or any
    other), which abandons the whole file.
   */
  datatype Outcome = Answered(translated: Dict<string>) | Unparsable | Raised

  /**
    The service, given the chunk's position and the chunk. The prompt and
    the response schema sent with a chunk are functions of the chunk alone
    (`ChunkSchema`), so the service sees everything the request carries.
   */
  type Service = (nat, Dict<string>) -> Outcome

  function Ask(service: Service, chunks: seq<Dict<string>>, i: nat): Outcome
    requires i < |chunks|
  {
    service(i, chunks[i])
  }

  /** What a chunk's outcome adds to the merged map. */
  function Contribution(o: Outcome): Dict<string>
  {
    if o.Answered? then o.translated else []
  }

  datatype Merge = Merged(translated: Dict<string>) | Abandoned(chunk: nat)

  /** The chunk loop from chunk `i` on, `acc` being the translations merged so far. */
  function MergeFrom(service: Service, chunks: seq<Dict<string>>, i: nat, acc: Dict<string>): Merge
    requires i <= |chunks|
    decreases |chunks| - i
  {
    if i == |chunks| then Merged(acc)
    else
      match Ask(service, chunks, i)
      case Raised => Abandoned(i)
      case Unparsable => MergeFrom(service, chunks, i + 1, acc)
      case Answered(t) => MergeFrom(service, chunks, i + 1, Update(acc, t))
  }

  /** Every answer from chunk `i` on, laid end to end in chunk order. */
  function Answers(service: Service, chunks: seq<Dict<string>>, i: nat): Dict<string>
    requires i <= |chunks|
    decreases |chunks| - i
  {
    if i == |chunks| then [] else Contribution(Ask(service, chunks, i)) + Answers(service, chunks, i + 1)
  }

  predicate NoneRaise(service: Service, chunks: seq<Dict<string>>, from: nat)
  {
    forall l | from <= l < |chunks| :: !Ask(service, chunks, l).Raised?
  }

  /** `k` is the first chunk at or after `from` whose request raises. */
  predicate FirstRaise(service: Service, chunks: seq<Dict<string>>, from: nat, k: nat)
  {
    from <= k < |chunks| && Ask(service, chunks, k).Raised? &&
    forall l | from <= l < k :: !Ask(service, chunks, l).Raised?
  }

  /**
    The loop finishes exactly when no request raises, and then holds every
    answer merged in chunk order, a later answer overriding an earlier one
    and an unparsable response adding nothing; otherwise it stops at the
    first chunk that raised.
   */
  lemma MergeFromSpec(service: Service, chunks: seq<Dict<string>>, i: nat, acc: Dict<string>)
    requires i <= |chunks|
    ensures MergeFrom(service, chunks, i, acc).Merged? <==> NoneRaise(service, chunks, i)
    ensures NoneRaise(service, chunks, i) ==>
              MergeFrom(service, chunks, i, acc) == Merged(Update(acc, Answers(service, chunks, i)))
    ensures MergeFrom(service, chunks, i, acc).Abandoned? ==>
              FirstRaise(service, chunks, i, MergeFrom(service, chunks, i, acc).chunk)
  {
    if NoneRaise(service, chunks, i) {
      MergeFinishes(service, chunks, i, acc);
    } else {
      var k :| i <= k < |chunks| && Ask(service, chunks, k).Raised?;
      MergeStops(service, chunks, i, k, acc);
    }
  }

  lemma {:induction false} MergeFinishes(service: Service, chunks: seq<Dict<string>>, i: nat, acc: Dict<string>)
    requires i <= |chunks| && NoneRaise(service, chunks, i)
    ensures MergeFrom(service, chunks, i, acc) == Merged(Update(acc, Answers(service, chunks, i)))
    decreases |chunks| - i
  {
    if i < |chunks| {
      var c := Contribution(Ask(service, chunks, i));
      MergeFinishes(service, chunks, i + 1, Update(acc, c));
      UpdateConcat(acc, c, Answers(service, chunks, i + 1));
      assert MergeFrom(service, chunks, i, acc) == MergeFrom(service, chunks, i + 1, Update(acc, c));
    }
  }

  lemma {:induction false} MergeStops(service: Service, chunks: seq<Dict<string>>, i: nat, k: nat, acc: Dict<string>)
    requires i <= k < |chunks| && Ask(service, chunks, k).Raised?
    ensures MergeFrom(service, chunks, i, acc).Abandoned?
    ensures FirstRaise(service, chunks, i, MergeFrom(service, chunks, i, acc).chunk)
    decreases |chunks| - i
  {
    var o := Ask(service, chunks, i);
    if !o.Raised? {
      var next := Update(acc, Contribution(o));
      MergeStops(service, chunks, i + 1, k, next);
      assert MergeFrom(service, chunks, i, acc) == MergeFrom(service, chunks, i + 1, next);
    }
  }

  datatype Failure = UnreadableInput | ChunkFailed(chunk: nat)

  /**
    What the job leaves behind: nothing when there is no client, an
    exception out of the job, or the document written to the output path.
   */
  datatype FileResult = ClientMissing | Failed(failure: Failure) | Written(output: Json)

  function FileChunks(doc: Json): seq<Dict<string>>
  {
    ChunkDict(Extract(doc), MaxFieldsPerChunk)
  }

  /**
    `translate_file_level` for a client that is or is not initialised and
    an input that did or did not parse as JSON.
   */
  function TranslateFile(clientReady: bool, input: Option<Json>, service: Service): FileResult
  {
    if !clientReady then ClientMissing
    else if input.None? then Failed(UnreadableInput)
    else
      var doc := input.value;
      if Extract(doc) == [] then Written(doc)
      else
        match MergeFrom(service, FileChunks(doc), 0, [])
        case Abandoned(k) => Failed(ChunkFailed(k))
        case Merged(m) => Written(ReplaceTranslated(doc, m))
  }

  /** Without a client nothing happens, and unreadable input fails the job, whatever the service would do. */
  lemma NotStarted(input: Option<Json>, service: Service, other: Service)
    ensures TranslateFile(false, input, service) == ClientMissing
    ensures input.None? ==> TranslateFile(true, input, service) == Failed(UnreadableInput)
    ensures TranslateFile(false, input, service) == TranslateFile(false, input, other)
  {
  }

  /** A document with nothing to translate is copied unchanged, and the service is never consulted. */
  lemma NothingToTranslate(doc: Json, service: Service, other: Service)
    requires Extract(doc) == []
    ensures TranslateFile(true, Some(doc), service) == Written(doc)
    ensures TranslateFile(true, Some(doc), service) == TranslateFile(true, Some(doc), other)
    ensures FileChunks(doc) == []
  {
  }

  /**
    A readable document is written exactly when no request raises, and it
    is then the document with the merged answers put in; otherwise the job
    fails at the first chunk that raised. The no-fields copy is the same
    rule with no chunks at all.
   */
  lemma FileOutcome(doc: Json, service: Service)
    ensures var r, chunks := TranslateFile(true, Some(doc), service), FileChunks(doc);
      (r.Written? <==> NoneRaise(service, chunks, 0)) &&
      (r.Written? ==> r.output == ReplaceTranslated(doc, Update([], Answers(service, chunks, 0)))) &&
      (!r.Written? ==> r.Failed? && r.failure.ChunkFailed? && FirstRaise(service, chunks, 0, r.failure.chunk))
  {
    var chunks := FileChunks(doc);
    if Extract(doc) == [] {
      assert chunks == [];
      assert Answers(service, chunks, 0) == [];
      ReplaceEmptyMap(doc);
    } else {
      MergeFromSpec(service, chunks, 0, []);
    }
  }

  /**
    A written document differs from the input only in the text of
    translatable fields, each taking the merged translation under its path
    key when there is a non-empty one.
   */
  lemma WrittenShape(doc: Json, service: Service)
    requires TranslateFile(true, Some(doc), service).Written?
    ensures var out, m := TranslateFile(true, Some(doc), service).output,
                          Update([], Answers(service, FileChunks(doc), 0));
      Skeleton(out) == Skeleton(doc) && Slots(out) == Retext("", Slots(doc), m)
  {
    FileOutcome(doc, service);
    var m := Update([], Answers(service, FileChunks(doc), 0));
    ReplaceSlots(doc, m, "");
    ReplaceSkeleton(doc, m, "");
  }

  /** Every answer keeps to its chunk's schema and holds each key once, as a parsed JSON object does. */
  predicate AnswersConform(service: Service, chunks: seq<Dict<string>>)
  {
    forall a | 0 <= a < |chunks| && Ask(service, chunks, a).Answered? ::
      Wf(Ask(service, chunks, a).translated) &&
      Conforms(Ask(service, chunks, a).translated, ChunkSchema(chunks[a]))
  }

  /** Every key an answer names is a key of the chunk it answers. */
  predicate StayInChunk(service: Service, chunks: seq<Dict<string>>)
  {
    forall a, k | 0 <= a < |chunks| && k in Keys(Contribution(Ask(service, chunks, a))) :: k in Keys(chunks[a])
  }

  /** Every answer holds each key once, as a parsed JSON object does. */
  predicate AnswersWf(service: Service, chunks: seq<Dict<string>>)
  {
    forall a | 0 <= a < |chunks| && Ask(service, chunks, a).Answered? :: Wf(Ask(service, chunks, a).translated)
  }

  /** Answers that keep to their schemas stay in their chunks; the schema demands more, but that is all the merge needs. */
  lemma ConformingAnswersStay(service: Service, chunks: seq<Dict<string>>)
    requires AnswersConform(service, chunks)
    ensures StayInChunk(service, chunks) && AnswersWf(service, chunks)
  {
    forall a, k | 0 <= a < |chunks| && k in Keys(Contribution(Ask(service, chunks, a)))
      ensures k in Keys(chunks[a])
    {
      assert Get(ChunkSchema(chunks[a]).properties, k).Some?;
    }
  }

  /** No key is shared by two different chunks. */
  predicate Apart(chunks: seq<Dict<string>>)
  {
    forall a, b, k | 0 <= a < |chunks| && 0 <= b < |chunks| && a != b && k in Keys(chunks[a]) :: k !in Keys(chunks[b])
  }

  lemma ChunksApart(chunks: seq<Dict<string>>)
    requires Wf(Flatten(chunks))
    ensures Apart(chunks)
  {
    forall a, b, k | 0 <= a < |chunks| && 0 <= b < |chunks| && a != b && k in Keys(chunks[a])
      ensures k !in Keys(chunks[b])
    {
      ChunksDisjoint(chunks, a, b, k);
    }
  }

  /** No answer but chunk `l`'s names the key `q`. */
  predicate OnlyOwnAnswer(service: Service, chunks: seq<Dict<string>>, l: nat, q: string)
  {
    forall a | 0 <= a < |chunks| && a != l :: q !in Keys(Contribution(Ask(service, chunks, a)))
  }

  /** When answers keep to their chunks and chunks share no key, a key of chunk `l` is answered by chunk `l` alone. */
  lemma OtherAnswersMiss(service: Service, chunks: seq<Dict<string>>, l: nat, q: string)
    requires Apart(chunks) && StayInChunk(service, chunks)
    requires l < |chunks| && q in Keys(chunks[l])
    ensures OnlyOwnAnswer(service, chunks, l, q)
  {
    forall a | 0 <= a < |chunks| && a != l
      ensures q !in Keys(Contribution(Ask(service, chunks, a)))
    {
      assert q !in Keys(chunks[a]);
    }
  }

  /** Answers from after chunk `l` never mention a key only chunk `l`'s answer names. */
  lemma {:induction false} LaterAnswersAvoid(service: Service, chunks: seq<Dict<string>>, i: nat, l: nat, q: string)
    requires OnlyOwnAnswer(service, chunks, l, q)
    requires l < i <= |chunks|
    ensures q !in Keys(Answers(service, chunks, i))
    decreases |chunks| - i
  {
    if i < |chunks| {
      var c := Contribution(Ask(service, chunks, i));
      var rest := Answers(service, chunks, i + 1);
      assert Answers(service, chunks, i) == c + rest;
      LaterAnswersAvoid(service, chunks, i + 1, l, q);
      KeysConcat(c, rest);
    } else {
      assert Keys(Answers(service, chunks, i)) == [];
    }
  }

  /** Merging the answers from chunk `i` on settles such a key as chunk `l`'s answer alone does. */
  lemma {:induction false} OwnChunkDecides(service: Service, chunks: seq<Dict<string>>, i: nat, l: nat, q: string, acc: Dict<string>)
    requires OnlyOwnAnswer(service, chunks, l, q)
    requires i <= l < |chunks|
    ensures Get(Update(acc, Answers(service, chunks, i)), q) ==
            Get(Update(acc, Contribution(Ask(service, chunks, l))), q)
    decreases |chunks| - i
  {
    var c := Contribution(Ask(service, chunks, i));
    var rest := Answers(service, chunks, i + 1);
    if i == l {
      LaterAnswersAvoid(service, chunks, i + 1, l, q);
      TakeAnswer(acc, c, rest, q);
    } else {
      OwnChunkDecides(service, chunks, i + 1, l, q, Update(acc, c));
      SkipAnswer(acc, c, rest, Contribution(Ask(service, chunks, l)), q);
    }
  }

  /** Later writes that miss `q` leave its value as the first batch set it. */
  lemma TakeAnswer(acc: Dict<string>, c: Dict<string>, rest: Dict<string>, q: string)
    requires q !in Keys(rest)
    ensures Get(Update(acc, c + rest), q) == Get(Update(acc, c), q)
  {
    UpdateConcat(acc, c, rest);
    UpdateMisses(Update(acc, c), rest, q);
  }

  /** A first batch of writes that misses `q` can be skipped when asking for `q`. */
  lemma SkipAnswer(acc: Dict<string>, c: Dict<string>, rest: Dict<string>, own: Dict<string>, q: string)
    requires q !in Keys(c)
    requires Get(Update(Update(acc, c), rest), q) == Get(Update(Update(acc, c), own), q)
    ensures Get(Update(acc, c + rest), q) == Get(Update(acc, own), q)
  {
    UpdateConcat(acc, c, rest);
    UpdateMisses(acc, c, q);
    UpdateAgrees(Update(acc, c), acc, own, q);
  }

  lemma UpdateMisses(d: Dict<string>, e: Dict<string>, q: string)
    requires q !in Keys(e)
    ensures Get(Update(d, e), q) == Get(d, q)
  {
  }

  lemma UpdateAgrees(a: Dict<string>, b: Dict<string>, e: Dict<string>, q: string)
    requires Get(a, q) == Get(b, q)
    ensures Get(Update(a, e), q) == Get(Update(b, e), q)
  {
  }

  /** The fields of a file are cut into ceil(n / 100) chunks of at most 100, all full but the last, in order. */
  lemma FileChunking(doc: Json)
    ensures var chunks := FileChunks(doc);
      Flatten(chunks) == Extract(doc) && Wf(Flatten(chunks)) &&
      |chunks| == ChunkCount(|Extract(doc)|, MaxFieldsPerChunk) &&
      (forall b | 0 <= b < |chunks| :: 1 <= |chunks[b]| <= MaxFieldsPerChunk) &&
      (forall b | 0 <= b < |chunks| - 1 :: |chunks[b]| == MaxFieldsPerChunk)
  {
    assert Wf<string>([]);
    UpdateWf([], Writes(doc, ""));
    ChunkCountMatches(Extract(doc), MaxFieldsPerChunk);
  }

  /** The schema sent for a chunk of a file names each of the chunk's keys once, in `properties` and in `required` alike. */
  lemma SentSchemaDistinct(doc: Json, l: nat)
    requires l < |FileChunks(doc)|
    ensures var chunk := FileChunks(doc)[l];
      Wf(chunk) && Distinct(ChunkSchema(chunk).required) && Keys(ChunkSchema(chunk).properties) == ChunkSchema(chunk).required
  {
    var chunk := FileChunks(doc)[l];
    FileChunking(doc);
    ChunkWf(FileChunks(doc), l);
    ChunkSchemaKeys(chunk);
    DistinctDedup(Keys(chunk));
  }

  /** Every field extraction records lies in some chunk, so every one is sent to the service. */
  lemma SlotChunked(doc: Json, i: nat)
    requires i < |Slots(doc)| && Live(Slots(doc)[i])
    ensures exists l | 0 <= l < |FileChunks(doc)| :: Encode(Slots(doc)[i].route) in Keys(FileChunks(doc)[l])
  {
    var q := Encode(Slots(doc)[i].route);
    ExpectedHasEntry("", Slots(doc), i);
    var e := Expected("", Slots(doc));
    assert q in Keys(e) by {
      var j :| 0 <= j < |e| && e[j] == (q, Strip(Slots(doc)[i].text));
      assert Keys(e)[j] == q;
    }
    ExtractCollisions(doc);
    FileChunking(doc);
    FlattenedKeyChunked(FileChunks(doc), q);
  }

  /**
    Partial failure: when no request raises and the answers keep to their
    chunks, a field in chunk `l` takes chunk `l`'s translation if that
    chunk was answered, and keeps its original text if the response could
    not be parsed; other chunks' answers have no say.
   */
  lemma PartialFailure(doc: Json, service: Service, l: nat, i: nat)
    requires NoneRaise(service, FileChunks(doc), 0)
    requires StayInChunk(service, FileChunks(doc)) && AnswersWf(service, FileChunks(doc))
    requires l < |FileChunks(doc)| && i < |Slots(doc)|
    requires Encode(Slots(doc)[i].route) in Keys(FileChunks(doc)[l])
    ensures TranslateFile(true, Some(doc), service).Written?
    ensures var out, s, o := TranslateFile(true, Some(doc), service).output, Slots(doc)[i], Ask(service, FileChunks(doc), l);
      |Slots(out)| == |Slots(doc)| &&
      (o.Answered? ==> Slots(out)[i] == Slot(s.route, NewText(Encode(s.route), s.text, o.translated))) &&
      (o.Unparsable? ==> Slots(out)[i] == s)
  {
    var chunks := FileChunks(doc);
    var s, o := Slots(doc)[i], Ask(service, chunks, l);
    var q := Encode(s.route);
    var m := Update([], Answers(service, chunks, 0));
    FileOutcome(doc, service);
    WrittenShape(doc, service);
    var out := TranslateFile(true, Some(doc), service).output;
    assert Slots(out) == Retext("", Slots(doc), m);
    assert Slots(out)[i] == Slot(s.route, NewText(q, s.text, m));
    MergedLookup(doc, service, l, q);
    assert Hit(m, q) == Hit(Contribution(o), q);
  }

  /** The merged map holds, for a key of chunk `l`, what chunk `l`'s answer holds. */
  lemma MergedLookup(doc: Json, service: Service, l: nat, q: string)
    requires StayInChunk(service, FileChunks(doc)) && AnswersWf(service, FileChunks(doc))
    requires l < |FileChunks(doc)| && q in Keys(FileChunks(doc)[l])
    ensures Get(Update([], Answers(service, FileChunks(doc), 0)), q) ==
            Get(Contribution(Ask(service, FileChunks(doc), l)), q)
  {
    var chunks := FileChunks(doc);
    FileChunking(doc);
    ChunksApart(chunks);
    OtherAnswersMiss(service, chunks, l, q);
    OwnChunkDecides(service, chunks, 0, l, q, []);
    var o := Ask(service, chunks, l);
    if o.Answered? {
      UpdateOfDistinct(o.translated);
    }
  }

  /** 150 fields make two requests, of 100 and 50 fields. */
  lemma HundredFiftyFields(d: Dict<string>)
    requires |d| == 150
    ensures var cs := ChunkDict(d, MaxFieldsPerChunk);
      |cs| == 2 == ChunkCount(150, MaxFieldsPerChunk) && |cs[0]| == 100 && |cs[1]| == 50
  {
    ChunkCountMatches(d, MaxFieldsPerChunk);
    var cs := ChunkDict(d, MaxFieldsPerChunk);
    assert FloorDiv(150, -100) == -2;
    FlattenLength(cs);
  }
}
