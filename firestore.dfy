/**
 * The Firestore side of the store: a database seen as the log of the atomic
 * writes committed to it (batches and single `set`s), whose documents are
 * what the log leaves, and the sync functions that push the local store to
 * it. A database that fails is modelled by a budget of commits that will
 * still succeed: a commit attempted with no budget left raises.
 */
module Cloud {
  import opened Text
  import opened PyDict
  import opened Definitions
  import opened Seqs
  import opened DocIds
  import opened Batches
  import opened Store

  datatype Collection =
    | EnglishToOjibweDocs | OjibweToEnglishDocs | SemanticMatchDocs
    | MissingTranslationDocs | EnglishDictDocs | VersionDocs

  /** The documents the pipeline writes, one shape per collection. */
  datatype Doc =
    | EnglishToOjibweDoc(englishText: string, ojibweText: string, definition: string)
    | OjibweToEnglishDoc(ojibweText: string, englishTexts: seq<string>)
    | SemanticMatchDoc(englishText: string, ojibweText: string, similarity: real,
                       englishDefinition: string, ojibweDefinition: string)
    | MissingTranslationDoc(englishText: string, frequency: int)
    | WordDoc(word: string)
    | CountDoc(count: int)
    | VersionDoc(version: string)

  type DocKey = (Collection, string)

  /** `collection.document(id).set(doc)`. */
  datatype Write = Write(collection: Collection, id: string, doc: Doc)

  const MetadataId := "_metadata"
  const VersionId := "current_version"
  const DefaultVersion := "1.0"

  function Key(w: Write): DocKey {
    (w.collection, w.id)
  }

  /** The documents after `ws` is applied to `m`, a later write to a document
      replacing an earlier one. */
  function ApplyWrites(m: map<DocKey, Doc>, ws: seq<Write>): map<DocKey, Doc>
    decreases |ws|
  {
    if ws == [] then m else ApplyWrites(m[Key(ws[0]) := ws[0].doc], ws[1..])
  }

  /** The documents a commit log leaves. */
  function Contents(log: seq<seq<Write>>): map<DocKey, Doc> {
    if log == [] then map[]
    else ApplyWrites(Contents(log[..|log| - 1]), log[|log| - 1])
  }

  /** A single `set` committed last decides its document. */
  lemma ContentsLastWrite(log: seq<seq<Write>>, w: Write)
    ensures Key(w) in Contents(log + [[w]])
    ensures Contents(log + [[w]])[Key(w)] == w.doc
  {
    var m := Contents(log);
    assert (log + [[w]])[..|log|] == log;
    assert Contents(log + [[w]]) == ApplyWrites(m, [w]);
    assert [w][1..] == [];
    assert ApplyWrites(m, [w]) == ApplyWrites(m[Key(w) := w.doc], []);
  }

  /** `get_firestore_version`: the stored version, or `"1.0"` when the
      database is unavailable or holds none. */
  function CurrentVersion(available: bool, docs: map<DocKey, Doc>): (r: string)
    ensures !available ==> r == DefaultVersion
    ensures available && (VersionDocs, VersionId) in docs && docs[(VersionDocs, VersionId)].VersionDoc? ==>
      r == docs[(VersionDocs, VersionId)].version
  {
    if available && (VersionDocs, VersionId) in docs && docs[(VersionDocs, VersionId)].VersionDoc? then
      docs[(VersionDocs, VersionId)].version
    else DefaultVersion
  }

  /** `check_english_dict_in_firestore`: the count kept in the metadata
      document (0 when it has none); without that document, -1 when the
      collection holds some document and 0 when it is empty. */
  function RemoteDictCount(available: bool, docs: map<DocKey, Doc>): (r: int)
    ensures !available ==> r == 0
    ensures available && (EnglishDictDocs, MetadataId) in docs ==>
      r == if docs[(EnglishDictDocs, MetadataId)].CountDoc? then docs[(EnglishDictDocs, MetadataId)].count else 0
    ensures available && (EnglishDictDocs, MetadataId) !in docs ==>
      (r == -1 <==> exists k :: k in docs && k.0 == EnglishDictDocs)
    ensures available && (EnglishDictDocs, MetadataId) !in docs ==>
      (r == 0 <==> forall k :: k in docs ==> k.0 != EnglishDictDocs)
  {
    if !available then 0
    else if (EnglishDictDocs, MetadataId) in docs then
      match docs[(EnglishDictDocs, MetadataId)]
      case CountDoc(c) => c
      case _ => 0
    else if exists k :: k in docs && k.0 == EnglishDictDocs then -1
    else 0
  }

  /** `int(local_count * 0.9)`, which for every count the dictionary can
      reach is `9 * local_count // 10`. */
  function DictThreshold(localCount: nat): nat {
    9 * localCount / 10
  }

  /** The dictionary sync is skipped when the remote count is unknown (-1) or
      already reaches 90% of the local count. */
  predicate SkipDictSync(remoteCount: int, localCount: nat) {
    remoteCount == -1 || remoteCount >= DictThreshold(localCount)
  }

  /** After a commit attempt sequence over `groups` starting from `log0` with
      `budget0` commits left: the groups that fit in the budget are committed,
      in order, and the push succeeds exactly when all of them fit. */
  predicate Pushed(log0: seq<seq<Write>>, budget0: nat, groups: seq<seq<Write>>,
                   log: seq<seq<Write>>, budget: nat, ok: bool) {
    var n := if |groups| <= budget0 then |groups| else budget0;
    && ok == (|groups| <= budget0)
    && log == log0 + groups[..n]
    && budget == budget0 - n
  }

  /** A push that succeeds followed by another is one push of both. */
  lemma PushedThen(log0: seq<seq<Write>>, b0: nat, g1: seq<seq<Write>>, log1: seq<seq<Write>>, b1: nat,
                   g2: seq<seq<Write>>, log2: seq<seq<Write>>, b2: nat, ok: bool)
    requires Pushed(log0, b0, g1, log1, b1, true)
    requires Pushed(log1, b1, g2, log2, b2, ok)
    ensures Pushed(log0, b0, g1 + g2, log2, b2, ok)
  {
    var n2 := if |g2| <= b1 then |g2| else b1;
    assert (g1 + g2)[..|g1| + n2] == g1 + g2[..n2];
  }

  /** A push followed by another that runs only if the first succeeded is
      one push of both. */
  lemma PushedSeq(log0: seq<seq<Write>>, b0: nat, g1: seq<seq<Write>>, log1: seq<seq<Write>>, b1: nat, ok1: bool,
                  g2: seq<seq<Write>>, log2: seq<seq<Write>>, b2: nat, ok2: bool)
    requires Pushed(log0, b0, g1, log1, b1, ok1)
    requires ok1 ==> Pushed(log1, b1, g2, log2, b2, ok2)
    requires !ok1 ==> log2 == log1 && b2 == b1 && !ok2
    ensures Pushed(log0, b0, g1 + g2, log2, b2, ok2)
  {
    if ok1 {
      PushedThen(log0, b0, g1, log1, b1, g2, log2, b2, ok2);
    } else {
      PushedFails(log0, b0, g1, log1, b1, g2);
    }
  }

  /** A push that fails stops everything after it. */
  lemma PushedFails(log0: seq<seq<Write>>, b0: nat, g1: seq<seq<Write>>, log1: seq<seq<Write>>, b1: nat,
                    g2: seq<seq<Write>>)
    requires Pushed(log0, b0, g1, log1, b1, false)
    ensures Pushed(log0, b0, g1 + g2, log1, b1, false)
  {
    assert (g1 + g2)[..b0] == g1[..b0];
  }

  /** A batch committed after whole batches extends the batches by one. */
  lemma PushGrew(sent: seq<Write>, batch: seq<Write>)
    requires |sent| % BatchLimit == 0 && 0 < |batch| <= BatchLimit
    ensures Chunks(sent + batch) == Chunks(sent) + [batch]
    ensures |Chunks(sent + batch)| == |sent| / BatchLimit + 1
  {
    ChunksAppend(sent, batch);
  }

  /** A commit that fails once the budget is spent on whole batches leaves a
      failed push of everything. */
  lemma PushStopped(log0: seq<seq<Write>>, b0: nat, sent: seq<Write>, rest: seq<Write>, log: seq<seq<Write>>)
    requires |sent| % BatchLimit == 0 && rest != []
    requires |Chunks(sent)| == b0 && log == log0 + Chunks(sent)
    ensures Pushed(log0, b0, Chunks(sent + rest), log, 0, false)
  {
    ChunksAppend(sent, rest);
    assert (Chunks(sent) + Chunks(rest))[..b0] == Chunks(sent);
  }

  /** A commit that fails after the writes of the first `i` rows were
      batched leaves a failed push of the writes of all the rows. */
  lemma StoppedAt<R>(rows: seq<R>, i: nat, toWrite: R -> Option<Write>, sent: seq<Write>, batch: seq<Write>,
                     log0: seq<seq<Write>>, b0: nat, log: seq<seq<Write>>)
    requires i <= |rows| && FilterMap(rows[..i], toWrite) == sent + batch
    requires |sent| % BatchLimit == 0 && batch != []
    requires |Chunks(sent)| == b0 && log == log0 + Chunks(sent)
    ensures Pushed(log0, b0, Chunks(FilterMap(rows, toWrite)), log, 0, false)
  {
    var tail := FilterMap(rows[i..], toWrite);
    FilterMapSplit(rows, i, toWrite);
    var rest := batch + tail;
    AppendAssoc(sent, batch, tail);
    assert FilterMap(rows, toWrite) == sent + rest;
    PushStopped(log0, b0, sent, rest, log);
  }

  /** The document `sync_english_dict_to_firestore` writes for one word. */
  function DictWrite(word: string): Option<Write> {
    Some(Write(EnglishDictDocs, SanitizeDocumentId(word), WordDoc(Lower(word))))
  }

  /** The metadata document written once the words are pushed. */
  function MetadataWrite(localCount: nat): Write {
    Write(EnglishDictDocs, MetadataId, CountDoc(localCount))
  }

  /** What a dictionary sync commits: the word documents in batches, then
      the metadata document. */
  function DictGroups(words: seq<string>): seq<seq<Write>> {
    Chunks(FilterMap(words, DictWrite)) + [[MetadataWrite(|words|)]]
  }

  /** One document per word, in order. */
  lemma DictWritesCount(words: seq<string>)
    ensures |FilterMap(words, DictWrite)| == |words|
  {
    FilterMapKeepsAll(words, DictWrite);
  }

  /** A dictionary sync that succeeds leaves the local count in the metadata
      document, so the next sync of the same words is skipped. */
  lemma DictSyncSettles(log0: seq<seq<Write>>, words: seq<string>)
    ensures RemoteDictCount(true, Contents(log0 + DictGroups(words))) == |words|
    ensures SkipDictSync(RemoteDictCount(true, Contents(log0 + DictGroups(words))), |words|)
  {
    var w := MetadataWrite(|words|);
    assert log0 + DictGroups(words) == (log0 + Chunks(FilterMap(words, DictWrite))) + [[w]];
    ContentsLastWrite(log0 + Chunks(FilterMap(words, DictWrite)), w);
  }

  /** Writes to other collections leave a document as it was. */
  lemma {:induction false} ApplyWritesOutside(m: map<DocKey, Doc>, ws: seq<Write>, k: DocKey)
    requires forall i :: 0 <= i < |ws| ==> ws[i].collection != k.0
    ensures (k in ApplyWrites(m, ws)) == (k in m)
    ensures k in m ==> ApplyWrites(m, ws)[k] == m[k]
    decreases |ws|
  {
    if ws != [] {
      ApplyWritesOutside(m[Key(ws[0]) := ws[0].doc], ws[1..], k);
    }
  }

  /** Commits that write only to other collections leave a document as it
      was. */
  lemma {:induction false} ContentsOutside(log0: seq<seq<Write>>, groups: seq<seq<Write>>, k: DocKey)
    requires forall g: seq<Write>, i :: g in groups && 0 <= i < |g| ==> g[i].collection != k.0
    ensures (k in Contents(log0 + groups)) == (k in Contents(log0))
    ensures k in Contents(log0) ==> Contents(log0 + groups)[k] == Contents(log0)[k]
    decreases |groups|
  {
    if groups == [] {
      assert log0 + groups == log0;
    } else {
      var init := groups[..|groups| - 1];
      ContentsOutside(log0, init, k);
      assert (log0 + groups)[..|log0 + groups| - 1] == log0 + init;
      var last := groups[|groups| - 1];
      assert last in groups;
      ApplyWritesOutside(Contents(log0 + init), last, k);
    }
  }

  /** The dictionary sync writes only to the dictionary collection, so the
      stored version is the same after it. */
  lemma DictSyncKeepsVersion(available: bool, log0: seq<seq<Write>>, words: seq<string>)
    ensures CurrentVersion(available, Contents(log0 + DictGroups(words))) == CurrentVersion(available, Contents(log0))
  {
    var ws := FilterMap(words, DictWrite);
    ChunkMembers(ws);
    forall g: seq<Write>, i | g in DictGroups(words) && 0 <= i < |g| ensures g[i].collection != VersionDocs {
      var w := g[i];
      assert w in g;
      if g in Chunks(ws) {
        FilterMapMembers(words, DictWrite, w);
      }
    }
    ContentsOutside(log0, DictGroups(words), (VersionDocs, VersionId));
  }

  /** The document `sync_to_firestore` writes for an English-to-Ojibwe row,
      or nothing when the row's definition is given but not valid. */
  function EnglishToOjibweWrite(row: EnglishToOjibweRow): Option<Write> {
    if row.definition != [] && !IsValidDefinition(row.definition, DefaultMinLength) then None
    else Some(Write(EnglishToOjibweDocs, SanitizeDocumentId(row.englishText),
                    EnglishToOjibweDoc(row.englishText, row.ojibweText, FormattedOrEmpty(row.definition))))
  }

  function OjibweToEnglishWrite(row: OjibweToEnglishRow): Option<Write> {
    Some(Write(OjibweToEnglishDocs, SanitizeDocumentId(row.ojibweText),
               OjibweToEnglishDoc(row.ojibweText, row.englishText)))
  }

  function SemanticMatchWrite(row: SemanticMatchRow): Option<Write> {
    Some(Write(SemanticMatchDocs, SanitizeDocumentId(row.englishText + "_" + row.ojibweText),
               SemanticMatchDoc(row.englishText, row.ojibweText, row.similarity,
                                row.englishDefinition, row.ojibweDefinition)))
  }

  function MissingTranslationWrite(row: MissingTranslationRow): Option<Write> {
    Some(Write(MissingTranslationDocs, SanitizeDocumentId(row.englishText),
               MissingTranslationDoc(row.englishText, row.frequency)))
  }

  function VersionWrite(version: string): Write {
    Write(VersionDocs, VersionId, VersionDoc(version))
  }

  /** The batches `sync_to_firestore` commits, collection after collection. */
  function SyncGroups(e2o: seq<EnglishToOjibweRow>, o2e: seq<OjibweToEnglishRow>,
                      matches: seq<SemanticMatchRow>, missing: seq<MissingTranslationRow>): seq<seq<Write>> {
    Chunks(FilterMap(e2o, EnglishToOjibweWrite))
      + Chunks(FilterMap(o2e, OjibweToEnglishWrite))
      + Chunks(FilterMap(matches, SemanticMatchWrite))
      + Chunks(FilterMap(missing, MissingTranslationWrite))
  }

  /** What a sync with `budget` commits left adds to the log: the batches
      that fit, and the version document only when every batch went through
      and one more commit is possible (a failing version write is ignored). */
  function SyncLog(groups: seq<seq<Write>>, budget: nat, version: string): seq<seq<Write>> {
    if |groups| <= budget then
      groups + (if |groups| < budget then [[VersionWrite(version)]] else [])
    else groups[..budget]
  }

  /** Every element of a batch is one of the operations batched. */
  lemma ChunkMembers<T>(xs: seq<T>)
    ensures forall c, x :: c in Chunks(xs) && x in c ==> x in xs
    decreases |xs|
  {
    if |xs| > BatchLimit {
      ChunkMembers(xs[BatchLimit..]);
      assert xs == xs[..BatchLimit] + xs[BatchLimit..];
    }
  }

  /** No batch of a sync touches the version document. */
  lemma SyncGroupsAvoidVersion(e2o: seq<EnglishToOjibweRow>, o2e: seq<OjibweToEnglishRow>,
                               matches: seq<SemanticMatchRow>, missing: seq<MissingTranslationRow>)
    ensures forall g, w :: g in SyncGroups(e2o, o2e, matches, missing) && w in g ==> w.collection != VersionDocs
  {
    var a := FilterMap(e2o, EnglishToOjibweWrite);
    var b := FilterMap(o2e, OjibweToEnglishWrite);
    var c := FilterMap(matches, SemanticMatchWrite);
    var d := FilterMap(missing, MissingTranslationWrite);
    ChunkMembers(a);
    ChunkMembers(b);
    ChunkMembers(c);
    ChunkMembers(d);
    forall w | w in a ensures w.collection == EnglishToOjibweDocs {
      FilterMapMembers(e2o, EnglishToOjibweWrite, w);
    }
    forall w | w in b ensures w.collection == OjibweToEnglishDocs {
      FilterMapMembers(o2e, OjibweToEnglishWrite, w);
    }
    forall w | w in c ensures w.collection == SemanticMatchDocs {
      FilterMapMembers(matches, SemanticMatchWrite, w);
    }
    forall w | w in d ensures w.collection == MissingTranslationDocs {
      FilterMapMembers(missing, MissingTranslationWrite, w);
    }
  }

  /** The version is written last, and only after every collection has been
      pushed: a commit of the sync that touches the version document is the
      final one, and all the batches precede it. When it goes through, the
      stored version is the one synced. */
  lemma {:induction false} VersionWrittenLast(log0: seq<seq<Write>>, e2o: seq<EnglishToOjibweRow>, o2e: seq<OjibweToEnglishRow>,
                           matches: seq<SemanticMatchRow>, missing: seq<MissingTranslationRow>,
                           budget: nat, version: string)
    ensures var groups := SyncGroups(e2o, o2e, matches, missing);
      var l := SyncLog(groups, budget, version);
      forall k, w :: 0 <= k < |l| && w in l[k] && w.collection == VersionDocs ==>
        k == |l| - 1 && l[..k] == groups && |groups| < budget
    ensures var groups := SyncGroups(e2o, o2e, matches, missing);
      |groups| < budget ==> CurrentVersion(true, Contents(log0 + SyncLog(groups, budget, version))) == version
  {
    var groups := SyncGroups(e2o, o2e, matches, missing);
    SyncGroupsAvoidVersion(e2o, o2e, matches, missing);
    SyncLogVersionLast(groups, budget, version);
    if |groups| < budget {
      SyncLogSetsVersion(log0, groups, budget, version);
    }
  }

  /** In the sync log of batches that avoid the version document, only the
      last commit, after all the batches, touches it. */
  lemma SyncLogVersionLast(groups: seq<seq<Write>>, budget: nat, version: string)
    requires forall g, w :: g in groups && w in g ==> w.collection != VersionDocs
    ensures var l := SyncLog(groups, budget, version);
      forall k, w :: 0 <= k < |l| && w in l[k] && w.collection == VersionDocs ==>
        k == |l| - 1 && l[..k] == groups && |groups| < budget
  {
    var l := SyncLog(groups, budget, version);
    forall k, w: Write | 0 <= k < |l| && w in l[k] && w.collection == VersionDocs
      ensures k == |l| - 1 && l[..k] == groups && |groups| < budget
    {
      if k < |groups| {
        assert false;
      }
    }
  }

  /** A sync whose batches all fit leaves the synced version stored. */
  lemma SyncLogSetsVersion(log0: seq<seq<Write>>, groups: seq<seq<Write>>, budget: nat, version: string)
    requires |groups| < budget
    ensures CurrentVersion(true, Contents(log0 + SyncLog(groups, budget, version))) == version
  {
    assert log0 + SyncLog(groups, budget, version) == (log0 + groups) + [[VersionWrite(version)]];
    ContentsLastWrite(log0 + groups, VersionWrite(version));
  }

  /** `list(set(xs))`: each element once. Python leaves the order of a set
      unspecified; this one keeps first occurrences. */
  function Distinct(xs: seq<string>): (r: seq<string>)
    ensures forall x :: x in r <==> x in xs
    ensures forall i, j :: 0 <= i < j < |r| ==> r[i] != r[j]
  {
    if xs == [] then []
    else
      var r := Distinct(xs[..|xs| - 1]);
      assert xs == xs[..|xs| - 1] + [xs[|xs| - 1]];
      if xs[|xs| - 1] in r then r else r + [xs[|xs| - 1]]
  }

  /** The merged English list of `update_or_create_ojibwe_to_english`: every
      text of the stored list or of the new one, each once. */
  ghost predicate MergedFrom(merged: seq<string>, stored: seq<string>, added: seq<string>) {
    && (forall x :: x in merged <==> x in stored || x in added)
    && (forall i, j :: 0 <= i < j < |merged| ==> merged[i] != merged[j])
  }

  /** The English texts a stored document holds (`get("english_text", [])`). */
  function StoredEnglish(d: Doc): seq<string> {
    if d.OjibweToEnglishDoc? then d.englishTexts else []
  }

  class Firestore {
    /** `FIREBASE_AVAILABLE`. */
    const available: bool
    /** The atomic writes committed so far, oldest first. */
    var log: seq<seq<Write>>
    /** How many more commits will succeed. */
    var budget: nat

    constructor (available: bool, initial: seq<seq<Write>>, budget: nat)
      ensures this.available == available && log == initial && this.budget == budget
    {
      this.available := available;
      log := initial;
      this.budget := budget;
    }

    function Documents(): map<DocKey, Doc>
      reads this
    {
      Contents(log)
    }

    /** `batch.commit()` or a single `set`: the writes go in together, or the
        call raises and nothing is written. */
    method Commit(batch: seq<Write>) returns (ok: bool)
      modifies this
      ensures ok == (old(budget) > 0)
      ensures ok ==> log == old(log) + [batch] && budget == old(budget) - 1
      ensures !ok ==> log == old(log) && budget == old(budget)
    {
      if budget == 0 {
        return false;
      }
      log := log + [batch];
      budget := budget - 1;
      return true;
    }

    /** The batching loop of the sync functions: each row gives a write or is
        skipped (without counting towards the batch), a batch is committed
        as soon as it holds 500 writes, and a last partial batch only when it
        is not empty. A failing commit ends the loop. */
    method CommitBatched<R>(rows: seq<R>, toWrite: R -> Option<Write>) returns (ok: bool)
      modifies this
      ensures Pushed(old(log), old(budget), Chunks(FilterMap(rows, toWrite)), log, budget, ok)
    {
      var batch: seq<Write> := [];
      ghost var sent: seq<Write> := [];
      ghost var done: nat := 0;
      for i := 0 to |rows|
        invariant FilterMap(rows[..i], toWrite) == sent + batch
        invariant |sent| == BatchLimit * done && |batch| < BatchLimit
        invariant |Chunks(sent)| == done <= old(budget)
        invariant log == old(log) + Chunks(sent) && budget == old(budget) - done
      {
        FilterMapStep(rows, i, toWrite);
        match toWrite(rows[i])
        case None =>
        case Some(w) =>
          AppendAssoc(sent, batch, [w]);
          batch := batch + [w];
          if |batch| >= BatchLimit {
            ok := Commit(batch);
            if !ok {
              StoppedAt(rows, i + 1, toWrite, sent, batch, old(log), old(budget), log);
              return;
            }
            PushGrew(sent, batch);
            sent := sent + batch;
            done := done + 1;
            batch := [];
          }
      }
      assert rows[..|rows|] == rows;
      if |batch| > 0 {
        ok := Commit(batch);
        if !ok {
          PushStopped(old(log), old(budget), sent, batch, log);
        } else {
          PushGrew(sent, batch);
        }
      } else {
        assert sent + batch == sent;
        ok := true;
      }
    }

    /** `sync_english_dict_to_firestore`: nothing happens when the database is
        unavailable or the skip rule holds; otherwise the word documents go in
        in batches and the metadata count after them, and a failing commit
        raises. */
    method SyncEnglishDictToFirestore(words: seq<string>) returns (raised: bool)
      modifies this
      ensures !available ==> !raised && log == old(log) && budget == old(budget)
      ensures available && SkipDictSync(RemoteDictCount(available, old(Documents())), |words|) ==>
        !raised && log == old(log) && budget == old(budget)
      ensures available && !SkipDictSync(RemoteDictCount(available, old(Documents())), |words|) ==>
        Pushed(old(log), old(budget), DictGroups(words), log, budget, !raised)
      ensures !raised ==> CurrentVersion(available, Documents()) == CurrentVersion(available, old(Documents()))
    {
      if !available {
        return false;
      }
      var remote := RemoteDictCount(available, Documents());
      if SkipDictSync(remote, |words|) {
        return false;
      }
      var ok := CommitBatched(words, DictWrite);
      if !ok {
        PushedFails(old(log), old(budget), Chunks(FilterMap(words, DictWrite)), log, budget, [[MetadataWrite(|words|)]]);
        return true;
      }
      ghost var log1, budget1 := log, budget;
      ok := Commit([MetadataWrite(|words|)]);
      PushedThen(old(log), old(budget), Chunks(FilterMap(words, DictWrite)), log1, budget1,
                 [[MetadataWrite(|words|)]], log, budget, ok);
      if ok {
        ghost var groups := DictGroups(words);
        assert groups[..|groups|] == groups;
        DictSyncKeepsVersion(available, old(log), words);
      }
      return !ok;
    }

    /** The four collection loops of `sync_to_firestore`, one after the
        other; a failing commit stops them all. The semantic matches are
        pushed only when there are some, which commits nothing less. */
    method PushCollections(e2o: seq<EnglishToOjibweRow>, o2e: seq<OjibweToEnglishRow>,
                           matches: seq<SemanticMatchRow>, missing: seq<MissingTranslationRow>)
      returns (ok: bool)
      modifies this
      ensures Pushed(old(log), old(budget), SyncGroups(e2o, o2e, matches, missing), log, budget, ok)
    {
      ghost var g1 := Chunks(FilterMap(e2o, EnglishToOjibweWrite));
      ghost var g2 := Chunks(FilterMap(o2e, OjibweToEnglishWrite));
      ghost var g3 := Chunks(FilterMap(matches, SemanticMatchWrite));
      ghost var g4 := Chunks(FilterMap(missing, MissingTranslationWrite));
      ok := CommitBatched(e2o, EnglishToOjibweWrite);
      ghost var log1, budget1, ok1 := log, budget, ok;
      if ok {
        ok := CommitBatched(o2e, OjibweToEnglishWrite);
      }
      PushedSeq(old(log), old(budget), g1, log1, budget1, ok1, g2, log, budget, ok);
      ghost var log2, budget2, ok2 := log, budget, ok;
      if ok && matches != [] {
        ok := CommitBatched(matches, SemanticMatchWrite);
      }
      PushedSeq(old(log), old(budget), g1 + g2, log2, budget2, ok2, g3, log, budget, ok);
      ghost var log3, budget3, ok3 := log, budget, ok;
      if ok {
        ok := CommitBatched(missing, MissingTranslationWrite);
      }
      PushedSeq(old(log), old(budget), g1 + g2 + g3, log3, budget3, ok3, g4, log, budget, ok);
    }

    /** `sync_to_firestore`: raises when the database is unavailable;
        otherwise pushes the four local tables in batches, then sets the
        version. A failing batch raises before the version is set; a failing
        version write is ignored. */
    method SyncToFirestore(store: LocalStore, version: string) returns (raised: bool)
      modifies this
      ensures !available ==> raised && log == old(log) && budget == old(budget)
      ensures available ==>
        var groups := SyncGroups(store.englishToOjibwe, store.ojibweToEnglish,
                                 store.semanticMatches, store.missingTranslations);
        && (raised <==> old(budget) < |groups|)
        && log == old(log) + SyncLog(groups, old(budget), version)
    {
      if !available {
        return true;
      }
      ghost var groups := SyncGroups(store.englishToOjibwe, store.ojibweToEnglish,
                                     store.semanticMatches, store.missingTranslations);
      var ok := PushCollections(store.englishToOjibwe, store.ojibweToEnglish,
                                store.semanticMatches, store.missingTranslations);
      if !ok {
        assert groups[..old(budget)] == SyncLog(groups, old(budget), version);
        return true;
      }
      assert log == old(log) + groups;
      var versionSet := Commit([VersionWrite(version)]);
      assert log == old(log) + SyncLog(groups, old(budget), version);
      return false;
    }

    /** `update_or_create_ojibwe_to_english`: when the Ojibwe text has a
        document, its English list becomes the union of the stored list and
        the lower-cased new texts, each once; otherwise a document is created
        with the lower-cased texts. A failing write is ignored. */
    method UpdateOrCreateOjibweToEnglish(ojibwe: string, english: seq<string>)
      modifies this
      ensures !available || old(budget) == 0 ==> log == old(log) && budget == old(budget)
      ensures available && old(budget) > 0 ==>
        var key := (OjibweToEnglishDocs, SanitizeDocumentId(ojibwe));
        && budget == old(budget) - 1
        && |log| == |old(log)| + 1 && log[..|old(log)|] == old(log)
        && |log[|old(log)|]| == 1
        && Key(log[|old(log)|][0]) == key
        && log[|old(log)|][0].doc.OjibweToEnglishDoc?
        && (key in old(Documents()) ==>
              MergedFrom(log[|old(log)|][0].doc.englishTexts, StoredEnglish(old(Documents())[key]), LowerAll(english)))
        && (key in old(Documents()) && old(Documents())[key].OjibweToEnglishDoc? ==>
              log[|old(log)|][0].doc.ojibweText == old(Documents())[key].ojibweText)
        && (key in old(Documents()) && !old(Documents())[key].OjibweToEnglishDoc? ==>
              log[|old(log)|][0].doc.ojibweText == Lower(ojibwe))
        && (key !in old(Documents()) ==>
              log[|old(log)|][0].doc == OjibweToEnglishDoc(Lower(ojibwe), LowerAll(english)))
    {
      if !available {
        return;
      }
      var key := (OjibweToEnglishDocs, SanitizeDocumentId(ojibwe));
      var docs := Documents();
      var texts := LowerAll(english);
      var doc;
      if key in docs {
        var stored := docs[key];
        var merged := Distinct(StoredEnglish(stored) + texts);
        doc := if stored.OjibweToEnglishDoc? then stored.(englishTexts := merged)
               else OjibweToEnglishDoc(Lower(ojibwe), merged);
      } else {
        forall j | 0 <= j < |texts| ensures Lower(texts[j]) == texts[j] {
          LowerIsLowerCase(english[j]);
        }
        assert LowerAll(texts) == texts;
        doc := OjibweToEnglishDoc(Lower(ojibwe), LowerAll(texts));
      }
      var ok := Commit([Write(key.0, key.1, doc)]);
    }
  }
}
