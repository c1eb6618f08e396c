/**
 * `DatabaseRouter`, the Django database router of the translations app: the
 * semantic-match models live in `semantic_matches`, `UntranslatedWord` in
 * `untranslated_words` and every other model of the app in `translations`;
 * models of other apps are left to the default routing (`None`).
 */
module Routers {
  import opened PyDict

  const TranslationsApp := "translations"
  const TranslationsDb := "translations"
  const SemanticMatchesDb := "semantic_matches"
  const UntranslatedWordsDb := "untranslated_words"

  /** What the router reads of a model: `_meta.app_label` and
      `_meta.model_name`. */
  datatype ModelMeta = ModelMeta(appLabel: string, modelName: string)

  predicate IsSemanticMatchModel(name: string) {
    name == "semanticmatch" || name == "semanticmatchlocal"
  }

  /** The database a model of the translations app is routed to. */
  function Route(name: string): (db: string)
    ensures db == SemanticMatchesDb <==> IsSemanticMatchModel(name)
    ensures db == UntranslatedWordsDb <==> name == "untranslatedword"
    ensures db == TranslationsDb <==> !IsSemanticMatchModel(name) && name != "untranslatedword"
  {
    if IsSemanticMatchModel(name) then SemanticMatchesDb
    else if name == "untranslatedword" then UntranslatedWordsDb
    else TranslationsDb
  }

  /** The three databases the router knows. */
  predicate IsKnownDb(db: string) {
    db == TranslationsDb || db == SemanticMatchesDb || db == UntranslatedWordsDb
  }

  /** `db_for_read`. */
  function DbForRead(model: ModelMeta): (r: Option<string>)
    ensures r.Some? <==> model.appLabel == TranslationsApp
    ensures r.Some? ==> IsKnownDb(r.value)
  {
    if model.appLabel == TranslationsApp then
      if IsSemanticMatchModel(model.modelName) then Some(SemanticMatchesDb)
      else if model.modelName == "untranslatedword" then Some(UntranslatedWordsDb)
      else Some(TranslationsDb)
    else None
  }

  /** `db_for_write`, which the source writes out separately with the same
      branches as `db_for_read`. */
  function DbForWrite(model: ModelMeta): (r: Option<string>)
    ensures r.Some? <==> model.appLabel == TranslationsApp
    ensures r.Some? ==> IsKnownDb(r.value)
  {
    if model.appLabel != TranslationsApp then None
    else if model.modelName == "semanticmatch" || model.modelName == "semanticmatchlocal" then Some(SemanticMatchesDb)
    else if model.modelName == "untranslatedword" then Some(UntranslatedWordsDb)
    else Some(TranslationsDb)
  }

  /** Reads and writes of every model go to the same database, the one
      `Route` names for the app's models. */
  lemma ReadWriteAgree(model: ModelMeta)
    ensures DbForRead(model) == DbForWrite(model)
    ensures model.appLabel == TranslationsApp ==> DbForRead(model) == Some(Route(model.modelName))
  {
  }

  /** `allow_relation` on the two objects' `_state.db`: whether they are in
      the same database when both are in known ones, `None` otherwise. */
  function AllowRelation(db1: Option<string>, db2: Option<string>): (r: Option<bool>)
    ensures r.Some? <==> db1.Some? && db2.Some? && IsKnownDb(db1.value) && IsKnownDb(db2.value)
    ensures r.Some? ==> (r.value <==> db1 == db2)
  {
    if db1.Some? && IsKnownDb(db1.value) && db2.Some? && IsKnownDb(db2.value) then Some(db1.value == db2.value)
    else None
  }

  /** `allow_migrate(db, app_label, model_name)`; `model_name` defaults to
      `None`, which names no model of the app. */
  function AllowMigrate(db: string, appLabel: string, modelName: Option<string>): (r: Option<bool>)
    ensures r.Some? <==> appLabel == TranslationsApp
  {
    if appLabel == TranslationsApp then
      match modelName
      case Some(name) =>
        if name == "semanticmatch" || name == "semanticmatchlocal" then Some(db == SemanticMatchesDb)
        else if name == "untranslatedword" then Some(db == UntranslatedWordsDb)
        else Some(db == TranslationsDb)
      case None => Some(db == TranslationsDb)
    else None
  }

  /** A model of the app is migrated exactly on the database its reads and
      writes are routed to, and on no other. */
  lemma MigrateFollowsRouting(db: string, name: string)
    ensures AllowMigrate(db, TranslationsApp, Some(name)) == Some(Some(db) == DbForWrite(ModelMeta(TranslationsApp, name)))
    ensures AllowMigrate(db, TranslationsApp, Some(name)) == Some(true) ==> IsKnownDb(db)
  {
  }

  /** Two models of the app, each in the database it is routed to, may be
      related exactly when they share that database. */
  lemma RelationFollowsRouting(a: string, b: string)
    ensures AllowRelation(DbForWrite(ModelMeta(TranslationsApp, a)), DbForWrite(ModelMeta(TranslationsApp, b)))
      == Some(Route(a) == Route(b))
  {
  }
}
