/**
  Moving hand-written providers out of the managed tree of a configuration document
  (packages/config/src/byok-config.ts). The document is what the file parses to; reading,
  backing up and writing the file are not modelled.
 */
module ProviderMigration {
  import opened Wrappers
  import opened ProviderKeys

  const MIGRATION_KEY := "byok_legacy_provider_to_custom_provider_v1"

  // -------------------------------------------------------------------- documents

  datatype Value = Text(text: string) | Flag(flag: bool) | Number(number: int) | List(items: seq<Value>) | Record(fields: Fields)

  type Fields = map<string, Value>

  predicate HasRecord(doc: Fields, key: string) {
    key in doc && doc[key].Record?
  }

  /** The record under a key, empty when there is none. */
  function Sub(doc: Fields, key: string): Fields {
    if HasRecord(doc, key) then doc[key].fields else map[]
  }

  predicate HasText(doc: Fields, key: string) {
    key in doc && doc[key].Text?
  }

  predicate HasWords(doc: Fields, key: string) {
    HasText(doc, key) && Trim(doc[key].text) != ""
  }

  /** What earlier runs recorded: which provider went to which key. */
  function MarkerOf(doc: Fields): map<string, string> {
    var providers := Sub(Sub(Sub(doc, "migrations"), MIGRATION_KEY), "providers");
    map p | p in providers && providers[p].Text? :: providers[p].text
  }

  function MarkerValue(marker: map<string, string>): Value {
    Record(map["version" := Number(1), "providers" := Record(map p | p in marker :: Text(marker[p]))])
  }

  // ------------------------------------------------------------------ one provider

  predicate ProviderLike(config: Value) {
    config.Record? && (HasText(config.fields, "name") || HasText(config.fields, "npm") || HasText(config.fields, "api")
                       || HasRecord(config.fields, "options") || HasRecord(config.fields, "models"))
  }

  /** A user's own provider: it has a key, an address and models. */
  predicate LegacyShape(config: Fields) {
    HasWords(Sub(config, "options"), "apiKey") && HasWords(Sub(config, "options"), "baseURL") && HasRecord(config, "models")
  }

  predicate Eligible(id: string, config: Value, managed: set<string>) {
    id != "minimax" && id != "minimax_api" && ProviderLike(config) && LegacyShape(config.fields) && id !in managed
  }

  lemma EligibleIsRecord(id: string, config: Value, managed: set<string>)
    requires Eligible(id, config, managed)
    ensures config.Record?
  {
  }

  function Migrated(config: Value): (custom: Value)
    requires config.Record?
    ensures custom.Record?
  {
    var enabled := !("enabled" in config.fields && config.fields["enabled"] == Flag(false));
    Record(config.fields["kind" := Text("custom")]["enabled" := Flag(enabled)]
                        ["options" := Record(Sub(config.fields, "options")["authMode" := Text("api-key")])])
  }

  predicate Blank(s: string) {
    forall i :: 0 <= i < |s| ==> White(s[i])
  }

  /**
    Eligible is exactly a provider that is not built in and not managed, has an API key
    and an address that are not blank, and lists models.
   */
  lemma EligibleExactly(id: string, config: Value, managed: set<string>)
    ensures Eligible(id, config, managed) <==>
              && id !in {"minimax", "minimax_api"} && id !in managed
              && config.Record? && HasRecord(config.fields, "options") && HasRecord(config.fields, "models")
              && var options := config.fields["options"].fields;
                 && HasText(options, "apiKey") && !Blank(options["apiKey"].text)
                 && HasText(options, "baseURL") && !Blank(options["baseURL"].text)
  {
    if config.Record? && HasRecord(config.fields, "options") {
      var options := config.fields["options"].fields;
      if HasText(options, "apiKey") {
        TrimIsBlank(options["apiKey"].text);
      }
      if HasText(options, "baseURL") {
        TrimIsBlank(options["baseURL"].text);
      }
    }
  }

  /**
    A migrated provider is of the custom kind, signs in with its API key, is enabled
    unless it was switched off, and is otherwise as it was.
   */
  lemma MigratedKeepsTheRest(config: Value)
    requires config.Record?
    ensures var was, now := config.fields, Migrated(config).fields;
            && HasText(now, "kind") && now["kind"].text == "custom"
            && "enabled" in now && now["enabled"] == Flag(!("enabled" in was && was["enabled"] == Flag(false)))
            && (forall f :: f !in {"kind", "enabled", "options"} ==> SameAt(was, now, f))
            && HasRecord(now, "options") && HasText(Sub(now, "options"), "authMode") && Sub(now, "options")["authMode"].text == "api-key"
            && forall o :: o != "authMode" ==> SameAt(Sub(was, "options"), Sub(now, "options"), o)
  {
  }

  /** The text a new key starts from. */
  function KeyBase(id: string, config: Value, hash: string -> string): string {
    var name := if config.Record? && HasText(config.fields, "name") then Slugify(config.fields["name"].text) else None;
    Slugify(id).OrElse(name).GetOr("provider-" + hash(id))
  }

  /** A key starts from the words of the provider's id, else of its name, else from the hash. */
  lemma KeyBaseExactly(id: string, config: Value, hash: string -> string)
    ensures Slugify(id).Some? ==> KeyBase(id, config, hash) == Slugify(id).value
    ensures Slugify(id).None? && config.Record? && HasText(config.fields, "name") && Slugify(config.fields["name"].text).Some? ==>
              KeyBase(id, config, hash) == Slugify(config.fields["name"].text).value
    ensures Slugify(id).None? && !(config.Record? && HasText(config.fields, "name") && Slugify(config.fields["name"].text).Some?) ==>
              KeyBase(id, config, hash) == "provider-" + hash(id)
  {
    hide Slugify;
  }

  /** An earlier run already chose a key that may be used. */
  predicate Recorded(marker: map<string, string>, id: string) {
    id in marker && marker[id] != "" && marker[id] !in RESERVED_KEYS
  }

  datatype Run = Run(provider: Fields, custom: Fields, marker: map<string, string>, migrated: map<string, string>)

  function Start(doc: Fields): Run {
    Run(Sub(doc, "provider"), Sub(doc, "custom_provider"), MarkerOf(doc), map[])
  }

  /**
    One provider: left alone unless eligible; dropped if its recorded key no longer
    holds a custom provider; else moved under its recorded key or a new one.
   */
  function Step(r: Run, id: string, managed: set<string>, hash: string -> string): Run {
    if id !in r.provider || !Eligible(id, r.provider[id], managed) then r
    else if Recorded(r.marker, id) then
      if HasRecord(r.custom, r.marker[id])
      then r.(provider := r.provider - {id}, migrated := r.migrated[id := r.marker[id]])
      else r.(provider := r.provider - {id})
    else
      var key := FreeKey(KeyBase(id, r.provider[id], hash), r.custom.Keys + RESERVED_KEYS);
      Run(r.provider - {id}, r.custom[key := Migrated(r.provider[id])], r.marker[id := key], r.migrated[id := key])
  }

  function Steps(r: Run, order: seq<string>, managed: set<string>, hash: string -> string): Run {
    if order == [] then r
    else Step(Steps(r, order[..|order| - 1], managed, hash), order[|order| - 1], managed, hash)
  }

  predicate Distinct(order: seq<string>) {
    forall i, j :: 0 <= i < j < |order| ==> order[i] != order[j]
  }

  ghost predicate Enumerates(order: seq<string>, ids: set<string>) {
    Distinct(order) && forall id :: id in order <==> id in ids
  }

  // -------------------------------------------------------------- what a run keeps

  predicate Moved(r0: Run, order: seq<string>, managed: set<string>, id: string) {
    id in order && id in r0.provider && Eligible(id, r0.provider[id], managed)
  }

  /** Providers are removed exactly when eligible. */
  ghost predicate Removed(r0: Run, r: Run, order: seq<string>, managed: set<string>) {
    r.provider == map id | id in r0.provider && !Moved(r0, order, managed, id) :: r0.provider[id]
  }

  /** Custom providers that were there stay as they were. */
  ghost predicate NothingOverwritten(r0: Run, r: Run) {
    forall key :: key in r0.custom ==> key in r.custom && r.custom[key] == r0.custom[key]
  }

  /** Each moved provider without a usable record has a new, unreserved key of its own that holds its configuration. */
  ghost predicate FreshlyKept(r0: Run, r: Run, order: seq<string>, managed: set<string>) {
    && (forall id :: Moved(r0, order, managed, id) && !Recorded(r0.marker, id) ==>
          && id in r.migrated && r.migrated[id] !in r0.custom && r.migrated[id] !in RESERVED_KEYS
          && r.migrated[id] in r.custom && r.custom[r.migrated[id]] == Migrated(r0.provider[id]))
    && (forall id, other :: Moved(r0, order, managed, id) && Moved(r0, order, managed, other) && id != other
                            && !Recorded(r0.marker, id) && !Recorded(r0.marker, other) && id in r.migrated && other in r.migrated ==>
          r.migrated[id] != r.migrated[other])
  }

  /** And there is no other new custom provider. */
  ghost predicate NothingElseAdded(r0: Run, r: Run, order: seq<string>, managed: set<string>) {
    forall key :: key in r.custom && key !in r0.custom ==>
      exists id :: Moved(r0, order, managed, id) && !Recorded(r0.marker, id) && id in r.migrated && r.migrated[id] == key
  }

  /** Providers with a usable record go back to it if it still holds a provider, and are dropped otherwise. */
  ghost predicate RecordsReused(r0: Run, r: Run, order: seq<string>, managed: set<string>) {
    && (forall id :: id in r.migrated ==> Moved(r0, order, managed, id))
    && (forall id :: id in r.migrated && Recorded(r0.marker, id) ==>
          r.migrated[id] == r0.marker[id] && HasRecord(r.custom, r0.marker[id]))
    && (forall id :: Moved(r0, order, managed, id) && Recorded(r0.marker, id) && HasRecord(r0.custom, r0.marker[id]) ==> id in r.migrated)
  }

  /** New keys are recorded, every other record stays. */
  ghost predicate MarkerUpdated(r0: Run, r: Run, order: seq<string>, managed: set<string>) {
    && (forall id :: Moved(r0, order, managed, id) && !Recorded(r0.marker, id) && id in r.migrated ==>
          id in r.marker && r.marker[id] == r.migrated[id])
    && (forall id :: !Moved(r0, order, managed, id) || Recorded(r0.marker, id) ==>
          (id in r.marker <==> id in r0.marker) && (id in r0.marker && id in r.marker ==> r.marker[id] == r0.marker[id]))
  }

  ghost predicate Sound(r0: Run, r: Run, order: seq<string>, managed: set<string>) {
    && Removed(r0, r, order, managed) && NothingOverwritten(r0, r)
    && FreshlyKept(r0, r, order, managed) && NothingElseAdded(r0, r, order, managed)
    && RecordsReused(r0, r, order, managed) && MarkerUpdated(r0, r, order, managed)
  }

  /** The next provider is still as it was, and nothing about it is decided yet. */
  lemma NextProvider(r0: Run, r: Run, front: seq<string>, id: string, managed: set<string>)
    requires Sound(r0, r, front, managed) && id !in front
    ensures id in r.provider <==> id in r0.provider
    ensures id in r0.provider ==> r.provider[id] == r0.provider[id]
    ensures Recorded(r.marker, id) == Recorded(r0.marker, id) && id !in r.migrated
    ensures Recorded(r0.marker, id) ==> r.marker[id] == r0.marker[id]
    ensures forall other :: Moved(r0, front + [id], managed, other) <==>
              Moved(r0, front, managed, other) || (other == id && id in r0.provider && Eligible(id, r0.provider[id], managed))
  {
    hide Eligible, FreshlyKept, NothingElseAdded, NothingOverwritten;
    assert !Moved(r0, front, managed, id);
  }

  lemma StepRemoves(r0: Run, r: Run, front: seq<string>, id: string, managed: set<string>, hash: string -> string)
    requires Sound(r0, r, front, managed) && id !in front
    ensures Removed(r0, Step(r, id, managed, hash), front + [id], managed)
    ensures NothingOverwritten(r0, Step(r, id, managed, hash))
  {
    hide Eligible, FreshlyKept, NothingElseAdded, RecordsReused, MarkerUpdated, Moved, Recorded, Migrated, HasRecord, KeyBase, FirstFree, Candidate;
    NextProvider(r0, r, front, id, managed);
  }

  lemma NewKeyKeepsFresh(r0: Run, r: Run, front: seq<string>, id: string, managed: set<string>, key: string)
    requires FreshlyKept(r0, r, front, managed) && NothingOverwritten(r0, r) && id !in front && id !in r.migrated
    requires id in r0.provider && Eligible(id, r0.provider[id], managed) && key !in r.custom && key !in RESERVED_KEYS
    ensures FreshlyKept(r0, r.(custom := r.custom[key := Migrated(r0.provider[id])], migrated := r.migrated[id := key]), front + [id], managed)
  {
    hide Eligible, Recorded, Migrated;
    forall other | Moved(r0, front + [id], managed, other) && other != id
      ensures Moved(r0, front, managed, other)
    {
    }
  }

  lemma StepKeepsFresh(r0: Run, r: Run, front: seq<string>, id: string, managed: set<string>, hash: string -> string)
    requires Sound(r0, r, front, managed) && id !in front
    ensures FreshlyKept(r0, Step(r, id, managed, hash), front + [id], managed)
  {
    hide Eligible, NothingElseAdded, Removed, RecordsReused, MarkerUpdated, Moved, Recorded, Migrated, HasRecord, KeyBase, FirstFree, Candidate;
    NextProvider(r0, r, front, id, managed);
    if id in r.provider && Eligible(id, r.provider[id], managed) && !Recorded(r.marker, id) {
      NewKeyKeepsFresh(r0, r, front, id, managed, FreeKey(KeyBase(id, r.provider[id], hash), r.custom.Keys + RESERVED_KEYS));
    }
  }

  lemma StepAddsNothingElse(r0: Run, r: Run, front: seq<string>, id: string, managed: set<string>, hash: string -> string)
    requires Sound(r0, r, front, managed) && id !in front
    ensures NothingElseAdded(r0, Step(r, id, managed, hash), front + [id], managed)
  {
    hide Eligible, FreshlyKept, Removed, RecordsReused, MarkerUpdated, Moved, Recorded, Migrated, HasRecord;
    NextProvider(r0, r, front, id, managed);
    var next := Step(r, id, managed, hash);
    forall key | key in next.custom && key !in r0.custom
      ensures exists other :: Moved(r0, front + [id], managed, other) && !Recorded(r0.marker, other)
                              && other in next.migrated && next.migrated[other] == key
    {
      if key in r.custom {
        var other :| Moved(r0, front, managed, other) && !Recorded(r0.marker, other) && other in r.migrated && r.migrated[other] == key;
        assert Moved(r0, front + [id], managed, other);
      } else {
        assert Moved(r0, front + [id], managed, id);
      }
    }
  }

  lemma StepReusesRecords(r0: Run, r: Run, front: seq<string>, id: string, managed: set<string>, hash: string -> string)
    requires Sound(r0, r, front, managed) && id !in front
    ensures RecordsReused(r0, Step(r, id, managed, hash), front + [id], managed)
  {
    hide Eligible, FreshlyKept, Removed, NothingElseAdded, MarkerUpdated, Moved, Migrated, Recorded, KeyBase;
    NextProvider(r0, r, front, id, managed);
  }

  lemma StepUpdatesMarker(r0: Run, r: Run, front: seq<string>, id: string, managed: set<string>, hash: string -> string)
    requires Sound(r0, r, front, managed) && id !in front
    ensures MarkerUpdated(r0, Step(r, id, managed, hash), front + [id], managed)
  {
    hide Eligible, FreshlyKept, Removed, NothingElseAdded, NothingOverwritten, RecordsReused, Moved, Migrated, Recorded, HasRecord, KeyBase, FreeKey;
    NextProvider(r0, r, front, id, managed);
  }

  /** Whatever the order of the providers, the outcome is sound. */
  lemma {:induction false} StepsAreSound(r0: Run, order: seq<string>, managed: set<string>, hash: string -> string)
    requires Distinct(order) && r0.migrated == map[]
    ensures Sound(r0, Steps(r0, order, managed, hash), order, managed)
  {
    hide Step, Moved, Recorded;
    if order == [] {
      StartIsSound(r0, managed);
    } else {
      var front, id := order[..|order| - 1], order[|order| - 1];
      var r := Steps(r0, front, managed, hash);
      StepsAreSound(r0, front, managed, hash);
      StepRemoves(r0, r, front, id, managed, hash);
      StepKeepsFresh(r0, r, front, id, managed, hash);
      StepAddsNothingElse(r0, r, front, id, managed, hash);
      StepReusesRecords(r0, r, front, id, managed, hash);
      StepUpdatesMarker(r0, r, front, id, managed, hash);
      assert front + [id] == order;
    }
  }

  lemma StartIsSound(r0: Run, managed: set<string>)
    requires r0.migrated == map[]
    ensures Sound(r0, r0, [], managed)
  {
  }

  // ------------------------------------------------------------- model references

  /** Where the first slash is, or the length of a text without one. */
  function FirstSlash(s: string): (n: nat)
    ensures n <= |s| && '/' !in s[..n] && (n < |s| ==> s[n] == '/')
  {
    if s == "" || s[0] == '/' then 0 else
      var n := FirstSlash(s[1..]);
      assert s[..n + 1] == [s[0]] + s[1..][..n];
      n + 1
  }

  function ModelPart(reference: string): string {
    var slash := FirstSlash(reference);
    if slash < |reference| then reference[slash + 1..] else ""
  }

  predicate Refers(reference: string, id: string) {
    var slash := FirstSlash(reference);
    0 < slash < |reference| - 1 && reference[..slash] == id
  }

  function RewriteRef(reference: string, migrated: map<string, string>): string {
    var slash := FirstSlash(reference);
    if slash == 0 || slash >= |reference| - 1 || reference[..slash] !in migrated then reference
    else "custom_provider:" + migrated[reference[..slash]] + "/" + reference[slash + 1..]
  }

  lemma {:induction false} FirstSlashIs(s: string, n: nat)
    requires n < |s| && s[n] == '/' && '/' !in s[..n]
    ensures FirstSlash(s) == n
  {
    if n > 0 {
      assert s[0] == s[..n][0];
      assert s[1..][..n - 1] == s[..n][1..];
      FirstSlashIs(s[1..], n - 1);
    }
  }

  lemma {:induction false} FirstSlashAtMost(s: string, i: nat)
    requires i < |s| && s[i] == '/'
    ensures FirstSlash(s) <= i
  {
    if i > 0 {
      FirstSlashAtMost(s[1..], i - 1);
    }
  }

  /** A rewritten reference splits as before exactly when the new key holds no slash. */
  lemma KeptModelPart(key: string, model: string)
    ensures ModelPart("custom_provider:" + key + "/" + model) == model <==> '/' !in key
  {
    var prefix := "custom_provider:" + key;
    var next := prefix + "/" + model;
    if '/' !in key {
      assert next[..|prefix|] == prefix;
      FirstSlashIs(next, |prefix|);
    } else {
      var i :| 0 <= i < |key| && key[i] == '/';
      assert next[16 + i] == key[i];
      FirstSlashAtMost(next, 16 + i);
      assert |ModelPart(next)| > |model|;
    }
  }

  /**
    A reference to a migrated provider names its new key; the model part is kept
    exactly when that key holds no slash (generated keys never do, recorded ones are
    whatever the document says). Every other reference stays.
   */
  lemma RewriteKeepsModel(reference: string, migrated: map<string, string>, id: string)
    ensures Refers(reference, id) && id in migrated ==>
              && RewriteRef(reference, migrated) == "custom_provider:" + migrated[id] + "/" + ModelPart(reference)
              && (ModelPart(RewriteRef(reference, migrated)) == ModelPart(reference) <==> '/' !in migrated[id])
    ensures RewriteRef(reference, migrated) != reference ==> exists p :: p in migrated && Refers(reference, p)
  {
    if Refers(reference, id) && id in migrated {
      KeptModelPart(migrated[id], ModelPart(reference));
    }
    if RewriteRef(reference, migrated) != reference {
      assert Refers(reference, reference[..FirstSlash(reference)]);
    }
  }

  /** Keys made for providers hold no slash, as the hash, hexadecimal digits, holds none. */
  lemma NewKeysHaveNoSlash(id: string, config: Value, hash: string -> string, used: set<string>)
    requires '/' !in hash(id)
    ensures '/' !in FreeKey(KeyBase(id, config, hash), used)
  {
    hide Slugify, CleanSlug, Candidate, FreeFrom, FirstFree;
    var base := KeyBase(id, config, hash);
    SlugHasNoSlash(id);
    if config.Record? && HasText(config.fields, "name") {
      SlugHasNoSlash(config.fields["name"].text);
    }
    FallbackHasNoSlash(hash(id));
    CandidatesHaveNoSlash(base, FreeFrom(base, used, 0));
  }

  lemma SlugHasNoSlash(value: string)
    ensures Slugify(value).Some? ==> '/' !in Slugify(value).value
  {
    hide Slugify;
    SlugsAreClean(value);
  }

  lemma FallbackHasNoSlash(hash: string)
    requires '/' !in hash
    ensures '/' !in "provider-" + hash
  {
  }

  // ----------------------------------------------------------------- the whole document

  function WithRef(doc: Fields, field: string, migrated: map<string, string>): Fields {
    if HasText(doc, field) then doc[field := Text(RewriteRef(doc[field].text, migrated))] else doc
  }

  function WithNexus(doc: Fields, migrated: map<string, string>): Fields {
    var nexus := Sub(doc, "nexus");
    var model := Sub(nexus, "model");
    if HasText(model, "providerID") && model["providerID"].text in migrated then
      doc["nexus" := Record(nexus["model" := Record(model["providerID" := Text("custom_provider:" + migrated[model["providerID"].text])])])]
    else doc
  }

  function WithCustom(doc: Fields, custom: Fields): Fields {
    if custom != map[] then doc["custom_provider" := Record(custom)] else doc - {"custom_provider"}
  }

  function WithMarker(doc: Fields, marker: map<string, string>): Fields {
    doc["migrations" := Record(Sub(doc, "migrations")[MIGRATION_KEY := MarkerValue(marker)])]
  }

  function Outcome(doc: Fields, r: Run): Fields {
    var moved := doc["provider" := Record(r.provider)];
    var referenced := WithNexus(WithRef(WithRef(moved, "defaultModel", r.migrated), "defaultLightModel", r.migrated), r.migrated);
    WithMarker(WithCustom(referenced, r.custom), r.marker)
  }

  /** The document after a migration, and which provider went where. */
  function Migrate(doc: Fields, order: seq<string>, managed: set<string>, hash: string -> string): (Fields, map<string, string>) {
    var r := Steps(Start(doc), order, managed, hash);
    if !HasRecord(doc, "provider") || r == Start(doc) then (doc, map[]) else (Outcome(doc, r), r.migrated)
  }

  const TOUCHED: set<string> := {"provider", "custom_provider", "defaultModel", "defaultLightModel", "nexus", "migrations"}

  lemma MarkerReadsBack(doc: Fields, marker: map<string, string>)
    ensures MarkerOf(WithMarker(doc, marker)) == marker
  {
    var next := WithMarker(doc, marker);
    assert Sub(Sub(next, "migrations"), MIGRATION_KEY) == MarkerValue(marker).fields;
  }

  ghost predicate OnlyTouched(doc: Fields, next: Fields, touched: set<string>) {
    && (forall key :: key !in touched ==> (key in next <==> key in doc))
    && forall key :: key in doc && key in next && key !in touched ==> next[key] == doc[key]
  }

  lemma ReferencesOnly(doc: Fields, migrated: map<string, string>)
    ensures var next := WithNexus(WithRef(WithRef(doc, "defaultModel", migrated), "defaultLightModel", migrated), migrated);
            OnlyTouched(doc, next, {"defaultModel", "defaultLightModel", "nexus"})
  {
    hide RewriteRef, Sub;
  }

  lemma OutcomeReadsBack(doc: Fields, r: Run)
    ensures var next := Outcome(doc, r);
            && HasRecord(next, "provider") && Sub(next, "provider") == r.provider
            && Sub(next, "custom_provider") == r.custom && MarkerOf(next) == r.marker
            && OnlyTouched(doc, next, TOUCHED)
  {
    hide WithRef, WithNexus, MarkerOf;
    var moved := doc["provider" := Record(r.provider)];
    ReferencesOnly(moved, r.migrated);
    var referenced := WithNexus(WithRef(WithRef(moved, "defaultModel", r.migrated), "defaultLightModel", r.migrated), r.migrated);
    MarkerReadsBack(WithCustom(referenced, r.custom), r.marker);
  }

  predicate SameAt(doc: Fields, next: Fields, field: string) {
    (field in next <==> field in doc) && (field in doc && field in next ==> next[field] == doc[field])
  }

  /** A reference field of the new document is the rewritten reference of the old one; any other value stays. */
  predicate RefRewritten(doc: Fields, next: Fields, field: string, migrated: map<string, string>) {
    if HasText(doc, field) then HasText(next, field) && next[field].text == RewriteRef(doc[field].text, migrated)
    else SameAt(doc, next, field)
  }

  /** The nexus model names its provider's new key and keeps everything else. */
  predicate NexusRewritten(doc: Fields, next: Fields, migrated: map<string, string>) {
    var model := Sub(Sub(doc, "nexus"), "model");
    if HasText(model, "providerID") && model["providerID"].text in migrated then
      HasRecord(next, "nexus") &&
      Sub(next, "nexus") == Sub(doc, "nexus")["model" := Record(model["providerID" := Text("custom_provider:" + migrated[model["providerID"].text])])]
    else SameAt(doc, next, "nexus")
  }

  predicate ReferencesRewritten(doc: Fields, next: Fields, migrated: map<string, string>) {
    && RefRewritten(doc, next, "defaultModel", migrated)
    && RefRewritten(doc, next, "defaultLightModel", migrated)
    && NexusRewritten(doc, next, migrated)
  }

  lemma TextsRewritten(doc: Fields, migrated: map<string, string>)
    ensures var next := WithRef(WithRef(doc, "defaultModel", migrated), "defaultLightModel", migrated);
            && RefRewritten(doc, next, "defaultModel", migrated) && RefRewritten(doc, next, "defaultLightModel", migrated)
            && SameAt(doc, next, "nexus")
  {
    hide RewriteRef;
  }

  lemma NexusFollows(doc: Fields, migrated: map<string, string>)
    ensures var next := WithNexus(doc, migrated);
            && NexusRewritten(doc, next, migrated) && SameAt(doc, next, "defaultModel") && SameAt(doc, next, "defaultLightModel")
  {
  }

  lemma ReferencesStay(doc: Fields, r: Run)
    ensures var next := WithMarker(WithCustom(doc, r.custom), r.marker);
            SameAt(doc, next, "defaultModel") && SameAt(doc, next, "defaultLightModel") && SameAt(doc, next, "nexus")
  {
    hide MarkerValue, Sub;
  }

  lemma OutcomeRewritesReferences(doc: Fields, r: Run)
    ensures ReferencesRewritten(doc, Outcome(doc, r), r.migrated)
  {
    hide RewriteRef, WithRef, WithNexus, WithCustom, WithMarker;
    var moved := doc["provider" := Record(r.provider)];
    var texts := WithRef(WithRef(moved, "defaultModel", r.migrated), "defaultLightModel", r.migrated);
    TextsRewritten(moved, r.migrated);
    NexusFollows(texts, r.migrated);
    ReferencesStay(WithNexus(texts, r.migrated), r);
  }

  lemma NothingMigratedNothingRewritten(doc: Fields)
    ensures ReferencesRewritten(doc, doc, map[])
  {
  }

  lemma {:induction false} NothingToMove(r: Run, order: seq<string>, managed: set<string>, hash: string -> string)
    requires forall id :: id in r.provider ==> !Eligible(id, r.provider[id], managed)
    ensures Steps(r, order, managed, hash) == r
  {
    if order != [] {
      NothingToMove(r, order[..|order| - 1], managed, hash);
    }
  }

  /**
    What a migration does to any document, in whatever order its providers are listed:
    exactly the eligible providers leave the managed tree; no custom provider is
    touched; each leaving provider without a usable recorded key finds its
    configuration under a new key of its own; nothing else is added; the three
    references to providers are rewritten by where their providers went; and nothing
    outside the six fields changes.
   */
  lemma MigrationIsSound(doc: Fields, order: seq<string>, managed: set<string>, hash: string -> string)
    requires HasRecord(doc, "provider") && Enumerates(order, Sub(doc, "provider").Keys)
    ensures var (next, migrated) := Migrate(doc, order, managed, hash);
            && Sound(Start(doc), Start(next).(migrated := migrated), order, managed)
            && HasRecord(next, "provider")
            && OnlyTouched(doc, next, TOUCHED)
            && ReferencesRewritten(doc, next, migrated)
  {
    hide Sound, Outcome, Step, ReferencesRewritten;
    var r := Steps(Start(doc), order, managed, hash);
    StepsAreSound(Start(doc), order, managed, hash);
    OutcomeReadsBack(doc, r);
    OutcomeRewritesReferences(doc, r);
    NothingMigratedNothingRewritten(doc);
  }

  /** A migrated provider has its recorded key or a key without a slash. */
  ghost predicate RecordedOrSlashless(r0: Run, r: Run) {
    forall id :: id in r.migrated ==>
      if Recorded(r0.marker, id) then r.migrated[id] == r0.marker[id] else '/' !in r.migrated[id]
  }

  lemma StepRecordedOrSlashless(r0: Run, r: Run, front: seq<string>, id: string, managed: set<string>, hash: string -> string)
    requires Sound(r0, r, front, managed) && id !in front && RecordedOrSlashless(r0, r) && '/' !in hash(id)
    ensures RecordedOrSlashless(r0, Step(r, id, managed, hash))
  {
    hide Sound, Eligible, Recorded, HasRecord, KeyBase, FreeKey, Migrated;
    NextProvider(r0, r, front, id, managed);
    if id in r.provider {
      NewKeysHaveNoSlash(id, r.provider[id], hash, r.custom.Keys + RESERVED_KEYS);
    }
  }

  lemma {:induction false} StepsRecordedOrSlashless(r0: Run, order: seq<string>, managed: set<string>, hash: string -> string)
    requires Distinct(order) && r0.migrated == map[] && forall id :: id in order ==> '/' !in hash(id)
    ensures RecordedOrSlashless(r0, Steps(r0, order, managed, hash))
  {
    hide Step, Sound;
    if order != [] {
      var front := order[..|order| - 1];
      StepsAreSound(r0, front, managed, hash);
      StepsRecordedOrSlashless(r0, front, managed, hash);
      StepRecordedOrSlashless(r0, Steps(r0, front, managed, hash), front, order[|order| - 1], managed, hash);
    }
  }

  /** A provider that goes back to a recorded key with a slash in it. */
  predicate GoesBackToSlash(doc: Fields, managed: set<string>, id: string) {
    && id in Sub(doc, "provider") && Eligible(id, Sub(doc, "provider")[id], managed)
    && Recorded(MarkerOf(doc), id) && '/' in MarkerOf(doc)[id]
    && HasRecord(Sub(doc, "custom_provider"), MarkerOf(doc)[id])
  }

  /** No provider is given a key with a slash in a run, so none is taken over with one. */
  lemma SlashIsNotGiven(r0: Run, front: seq<string>, managed: set<string>, hash: string -> string, key: string)
    requires Distinct(front) && r0.migrated == map[] && (forall p :: p in front ==> '/' !in hash(p)) && '/' in key
    ensures !GivenBefore(r0, front, managed, hash, key)
  {
    hide Steps, Moved, Recorded;
    StepsRecordedOrSlashless(r0, front, managed, hash);
  }

  lemma MigratedToSlashExactly(doc: Fields, order: seq<string>, managed: set<string>, hash: string -> string, id: string)
    requires HasRecord(doc, "provider") && Enumerates(order, Sub(doc, "provider").Keys)
    requires forall p :: p in order ==> '/' !in hash(p)
    requires Recorded(MarkerOf(doc), id) && '/' in MarkerOf(doc)[id]
    ensures id in Migrate(doc, order, managed, hash).1 <==> GoesBackToSlash(doc, managed, id)
  {
    hide Outcome, FreshlyKept, NothingElseAdded, MarkerUpdated, NothingOverwritten, MarkerOf, Step, Steps, Eligible, OnlyTouched, ReferencesRewritten, GivenBefore, HasRecord, Migrate;
    MigrationIsSound(doc, order, managed, hash);
    if Moved(Start(doc), order, managed, id) && !HasRecord(Sub(doc, "custom_provider"), MarkerOf(doc)[id]) {
      var i :| 0 <= i < |order| && order[i] == id;
      SurvivesExactlyWhenTakenOver(doc, order, i, managed, hash);
      SlashIsNotGiven(Start(doc), order[..i], managed, hash, MarkerOf(doc)[id]);
    }
  }

  /**
    A default model's reference loses its model part in a migration if and only if it
    refers to an eligible provider recorded under a key that holds a slash and still
    holds a custom provider. Hashes are hexadecimal digits.
   */
  lemma ModelPartSurvives(doc: Fields, order: seq<string>, managed: set<string>, hash: string -> string, field: string, id: string)
    requires HasRecord(doc, "provider") && Enumerates(order, Sub(doc, "provider").Keys)
    requires forall p :: p in order ==> '/' !in hash(p)
    requires field == "defaultModel" || field == "defaultLightModel"
    requires HasText(doc, field) && Refers(doc[field].text, id)
    ensures var (next, migrated) := Migrate(doc, order, managed, hash);
            && HasText(next, field)
            && (ModelPart(next[field].text) == ModelPart(doc[field].text) <==> !GoesBackToSlash(doc, managed, id))
            && (id !in migrated ==> next[field].text == doc[field].text)
  {
    hide Sound, Outcome, Step, NexusRewritten, RewriteRef, ModelPart, MarkerOf, Eligible, HasRecord;
    var (next, migrated) := Migrate(doc, order, managed, hash);
    MigrationIsSound(doc, order, managed, hash);
    StepsRecordedOrSlashless(Start(doc), order, managed, hash);
    RewriteKeepsModel(doc[field].text, migrated, id);
    OneProviderPerReference(doc[field].text, id);
    if Recorded(MarkerOf(doc), id) && '/' in MarkerOf(doc)[id] {
      MigratedToSlashExactly(doc, order, managed, hash, id);
    }
  }

  lemma OneProviderPerReference(reference: string, id: string)
    requires Refers(reference, id)
    ensures forall p :: Refers(reference, p) ==> p == id
  {
  }

  const LEGACY_CONFIG: Value := Record(map[
    "options" := Record(map["apiKey" := Text("k"), "baseURL" := Text("u")]),
    "models" := Record(map[])])

  lemma LegacyConfigIsEligible(id: string)
    requires id != "minimax" && id != "minimax_api"
    ensures Eligible(id, LEGACY_CONFIG, {})
  {
    assert TrimStart("k") == "k" && Trim("k") == "k";
    assert TrimStart("u") == "u" && Trim("u") == "u";
  }

  const SLASHED_DOCUMENT: Fields := map[
    "provider" := Record(map["a" := LEGACY_CONFIG]),
    "custom_provider" := Record(map["x/y" := Record(map[])]),
    "migrations" := Record(map[MIGRATION_KEY := MarkerValue(map["a" := "x/y"])]),
    "defaultModel" := Text("a/m")]

  /** Such a document: the provider was recorded under "x/y", and its reference comes out with another model part. */
  lemma SlashedKeyChangesModelPart(hash: string -> string)
    requires '/' !in hash("a")
    ensures var (next, migrated) := Migrate(SLASHED_DOCUMENT, ["a"], {}, hash);
            && Enumerates(["a"], Sub(SLASHED_DOCUMENT, "provider").Keys)
            && migrated == map["a" := "x/y"]
            && HasText(next, "defaultModel")
            && ModelPart(next["defaultModel"].text) != ModelPart(SLASHED_DOCUMENT["defaultModel"].text)
  {
    hide Eligible, Outcome, MarkerOf;
    var doc := SLASHED_DOCUMENT;
    SlashedDocumentStarts();
    LegacyConfigIsEligible("a");
    OneProviderSteps(Start(doc), "a", {}, hash);
    FirstSlashIs("a/m", 1);
    assert Refers("a/m", "a");
    ModelPartSurvives(doc, ["a"], {}, hash, "defaultModel", "a");
  }

  lemma SlashedDocumentStarts()
    ensures Start(SLASHED_DOCUMENT) == Run(map["a" := LEGACY_CONFIG], map["x/y" := Record(map[])], map["a" := "x/y"], map[])
    ensures '/' in "x/y" && "x/y" !in RESERVED_KEYS
  {
    assert "x/y"[1] == '/';
    assert MarkerOf(SLASHED_DOCUMENT) == map["a" := "x/y"];
  }

  lemma OneProviderSteps(r: Run, id: string, managed: set<string>, hash: string -> string)
    ensures Steps(r, [id], managed, hash) == Step(r, id, managed, hash)
  {
    hide Step;
    assert [id][..0] == [];
  }

  /** A second run finds nothing to do. */
  lemma SecondRunChangesNothing(doc: Fields, order: seq<string>, again: seq<string>, managed: set<string>, hash: string -> string)
    requires HasRecord(doc, "provider") && Enumerates(order, Sub(doc, "provider").Keys)
    ensures var next := Migrate(doc, order, managed, hash).0;
            Migrate(next, again, managed, hash) == (next, map[])
  {
    hide Outcome, Step, Eligible, FreshlyKept, NothingElseAdded, RecordsReused, MarkerUpdated, NothingOverwritten, MarkerOf;
    var next := Migrate(doc, order, managed, hash).0;
    MigrationIsSound(doc, order, managed, hash);
    forall id | id in Sub(next, "provider")
      ensures !Eligible(id, Sub(next, "provider")[id], managed)
    {
      assert !Moved(Start(doc), order, managed, id);
    }
    NothingToMove(Start(next), again, managed, hash);
  }

  lemma OthersLeaveAlone(r: Run, id: string, other: string, managed: set<string>, hash: string -> string)
    requires id != other
    ensures var next := Step(r, other, managed, hash);
            && (id in next.migrated <==> id in r.migrated)
            && (id in r.migrated ==> next.migrated[id] == r.migrated[id])
  {
    hide Eligible, Migrated, KeyBase, FreeKey, HasRecord, Recorded;
  }

  /** What a provider comes to is settled at its turn. */
  lemma {:induction false} SettledAtItsTurn(r0: Run, order: seq<string>, i: nat, managed: set<string>, hash: string -> string)
    requires Distinct(order) && i < |order|
    ensures var turn, end := Steps(r0, order[..i + 1], managed, hash), Steps(r0, order, managed, hash);
            && (order[i] in end.migrated <==> order[i] in turn.migrated)
            && (order[i] in end.migrated ==> end.migrated[order[i]] == turn.migrated[order[i]])
    decreases |order|
  {
    hide Step;
    if i + 1 == |order| {
      assert order[..i + 1] == order;
    } else {
      var front := order[..|order| - 1];
      assert front[..i + 1] == order[..i + 1];
      SettledAtItsTurn(r0, front, i, managed, hash);
      OthersLeaveAlone(Steps(r0, front, managed, hash), order[i], order[|order| - 1], managed, hash);
    }
  }

  /** An earlier provider of the list has been given this new key. */
  ghost predicate GivenBefore(r0: Run, front: seq<string>, managed: set<string>, hash: string -> string, key: string) {
    var r := Steps(r0, front, managed, hash);
    exists other :: Moved(r0, front, managed, other) && !Recorded(r0.marker, other) && other in r.migrated && r.migrated[other] == key
  }

  lemma HeldExactlyWhenGiven(r0: Run, front: seq<string>, managed: set<string>, hash: string -> string, key: string)
    requires Distinct(front) && r0.migrated == map[] && !HasRecord(r0.custom, key)
    ensures HasRecord(Steps(r0, front, managed, hash).custom, key) <==> GivenBefore(r0, front, managed, hash, key)
  {
    hide Eligible, RecordsReused, MarkerUpdated, Removed, Step, Recorded;
    StepsAreSound(r0, front, managed, hash);
    var r := Steps(r0, front, managed, hash);
    if HasRecord(r.custom, key) {
      assert key !in r0.custom;
    }
    if GivenBefore(r0, front, managed, hash, key) {
      var other :| Moved(r0, front, managed, other) && !Recorded(r0.marker, other) && other in r.migrated && r.migrated[other] == key;
      EligibleIsRecord(other, r0.provider[other], managed);
      assert r.custom[key] == Migrated(r0.provider[other]);
    }
  }

  /**
    A provider whose recorded key holds no custom provider is migrated if and only if a
    provider listed before it has, in this run, been given that very key; then it shares
    that key. Otherwise it is dropped: it leaves the managed tree and goes nowhere.
   */
  lemma SurvivesExactlyWhenTakenOver(doc: Fields, order: seq<string>, i: nat, managed: set<string>, hash: string -> string)
    requires HasRecord(doc, "provider") && Enumerates(order, Sub(doc, "provider").Keys) && i < |order|
    requires Eligible(order[i], Sub(doc, "provider")[order[i]], managed)
    requires Recorded(MarkerOf(doc), order[i]) && !HasRecord(Sub(doc, "custom_provider"), MarkerOf(doc)[order[i]])
    ensures var (next, migrated) := Migrate(doc, order, managed, hash);
            var key := MarkerOf(doc)[order[i]];
            && order[i] !in Sub(next, "provider")
            && (order[i] in migrated <==> GivenBefore(Start(doc), order[..i], managed, hash, key))
            && (order[i] in migrated ==> migrated[order[i]] == key)
  {
    hide Outcome, FreshlyKept, NothingElseAdded, MarkerUpdated, NothingOverwritten, MarkerOf, Step, Eligible, OnlyTouched, ReferencesRewritten, GivenBefore, HasRecord;
    var r0, front, id := Start(doc), order[..i], order[i];
    var r := Steps(r0, front, managed, hash);
    MigrationIsSound(doc, order, managed, hash);
    StepsAreSound(r0, front, managed, hash);
    NextProvider(r0, r, front, id, managed);
    HeldExactlyWhenGiven(r0, front, managed, hash, r0.marker[id]);
    OneStep(r0, order, i, managed, hash);
    RecordedStep(r, id, managed, hash);
    SettledAtItsTurn(r0, order, i, managed, hash);
    assert Moved(r0, order, managed, id);
  }

  lemma RecordedStep(r: Run, id: string, managed: set<string>, hash: string -> string)
    requires id in r.provider && Eligible(id, r.provider[id], managed) && Recorded(r.marker, id) && id !in r.migrated
    ensures var next := Step(r, id, managed, hash);
            && (id in next.migrated <==> HasRecord(r.custom, r.marker[id]))
            && (id in next.migrated ==> next.migrated[id] == r.marker[id])
  {
  }

  /**
    Dropping is not decided by the document alone: b's recorded key "a" holds no
    provider, yet if provider a is listed first it takes that key, and b's references
    then lead to a's configuration; listed first itself, b is dropped.
   */
  lemma RecordedKeyMayBeTakenOver(configA: Value, configB: Value, hash: string -> string)
    requires Eligible("a", configA, {}) && Eligible("b", configB, {})
    ensures Eligible("a", LEGACY_CONFIG, {}) && Eligible("b", LEGACY_CONFIG, {})
    ensures var start := TwoProviders(configA, configB);
            var aFirst, bFirst := Steps(start, ["a", "b"], {}, hash), Steps(start, ["b", "a"], {}, hash);
            && "b" in aFirst.migrated && aFirst.migrated["b"] == "a"
            && "a" in aFirst.custom && aFirst.custom["a"] == Migrated(configA)
            && "b" !in bFirst.migrated && "b" !in bFirst.provider
  {
    hide Eligible, Migrated, Step;
    LegacyConfigIsEligible("a");
    LegacyConfigIsEligible("b");
    EligibleIsRecord("a", configA, {});
    ListedFirst(configA, configB, hash);
    ListedLast(configA, configB, hash);
    TwoSteps(TwoProviders(configA, configB), "a", "b", hash);
    TwoSteps(TwoProviders(configA, configB), "b", "a", hash);
  }

  /** Two legacy providers; b was once migrated under "a", which has been deleted since. */
  function TwoProviders(configA: Value, configB: Value): Run {
    Run(map["a" := configA, "b" := configB], map[], map["b" := "a"], map[])
  }

  lemma ListedFirst(configA: Value, configB: Value, hash: string -> string)
    requires Eligible("a", configA, {}) && Eligible("b", configB, {}) && configA.Record?
    ensures var r := Step(Step(TwoProviders(configA, configB), "a", {}, hash), "b", {}, hash);
            && "b" in r.migrated && r.migrated["b"] == "a" && "a" in r.custom && r.custom["a"] == Migrated(configA)
  {
    hide Eligible, Migrated, KeyBase, FreeKey;
    var start := TwoProviders(configA, configB);
    assert start.custom.Keys + RESERVED_KEYS == RESERVED_KEYS;
    KeyOfA(configA, hash);
  }

  lemma ListedLast(configA: Value, configB: Value, hash: string -> string)
    requires Eligible("a", configA, {}) && Eligible("b", configB, {})
    ensures var r := Step(Step(TwoProviders(configA, configB), "b", {}, hash), "a", {}, hash);
            "b" !in r.migrated && "b" !in r.provider
  {
    hide Eligible, Migrated, KeyBase, FreeKey;
  }

  lemma KeyOfA(config: Value, hash: string -> string)
    ensures FreeKey(KeyBase("a", config, hash), RESERVED_KEYS) == "a"
  {
    assert TrimStart("a") == "a" && Trim("a") == "a";
    assert "a"[1..] == "" && Hyphenated("", false) == "" && Hyphenated("a", false) == "a";
    assert Slugify("a") == Some("a");
    assert Candidate("a", 0) == "a";
  }

  lemma TwoSteps(r: Run, first: string, second: string, hash: string -> string)
    ensures Steps(r, [first, second], {}, hash) == Step(Step(r, first, {}, hash), second, {}, hash)
  {
    hide Step;
    var order := [first, second];
    assert order[..1] == [first] && [first][..0] == [];
    assert Steps(r, [first], {}, hash) == Step(Steps(r, [first][..0], {}, hash), first, {}, hash);
  }

  lemma NoSteps(r: Run, managed: set<string>, hash: string -> string)
    ensures Steps(r, [], managed, hash) == r
  {
  }

  lemma OneStep(r: Run, order: seq<string>, i: nat, managed: set<string>, hash: string -> string)
    requires i < |order|
    ensures Steps(r, order[..i + 1], managed, hash) == Step(Steps(r, order[..i], managed, hash), order[i], managed, hash)
  {
    assert order[..i + 1][..i] == order[..i] && order[..i + 1][i] == order[i];
  }

  method GenerateLegacyCustomProviderKey(id: string, config: Value, existingKeys: set<string>, hash: string -> string) returns (key: string)
    ensures key == FreeKey(KeyBase(id, config, hash), existingKeys + RESERVED_KEYS)
  {
    key := GenerateKey(KeyBase(id, config, hash), existingKeys);
  }

  method MigrateLegacyByokProviders(doc: Fields, order: seq<string>, managed: set<string>, hash: string -> string)
    returns (raw: Fields, migratedProviders: map<string, string>)
    requires HasRecord(doc, "provider") ==> Enumerates(order, Sub(doc, "provider").Keys)
    ensures (raw, migratedProviders) == Migrate(doc, order, managed, hash)
  {
    hide Eligible, Migrated, KeyBase, FreeKey, Outcome, Steps, Sub, MarkerOf;
    raw, migratedProviders := doc, map[];
    if !HasRecord(doc, "provider") {
      return;
    }
    var provider, custom, marker := Sub(doc, "provider"), Sub(doc, "custom_provider"), MarkerOf(doc);
    var existingKeys := custom.Keys;
    var changed := false;
    ghost var start, gone := Start(doc), "";
    NoSteps(start, managed, hash);
    assert order[..0] == [];
    for i := 0 to |order|
      invariant Steps(start, order[..i], managed, hash) == Run(provider, custom, marker, migratedProviders)
      invariant existingKeys == custom.Keys
      invariant !changed ==> Run(provider, custom, marker, migratedProviders) == start
      invariant changed ==> gone in start.provider && gone !in provider
      invariant forall id :: id in provider ==> id in start.provider
    {
      var id := order[i];
      OneStep(start, order, i, managed, hash);
      if id !in provider || !Eligible(id, provider[id], managed) {
        continue;
      }
      gone := id;
      if Recorded(marker, id) && !HasRecord(custom, marker[id]) {
        provider, changed := provider - {id}, true;
        continue;
      }
      var customKey;
      if Recorded(marker, id) {
        customKey := marker[id];
      } else {
        customKey := GenerateLegacyCustomProviderKey(id, provider[id], existingKeys, hash);
      }
      migratedProviders := migratedProviders[id := customKey];
      if !HasRecord(custom, customKey) {
        EligibleIsRecord(id, provider[id], managed);
        custom := custom[customKey := Migrated(provider[id])];
        existingKeys := existingKeys + {customKey};
        changed := true;
      }
      if id !in marker || marker[id] != customKey {
        marker, changed := marker[id := customKey], true;
      }
      provider, changed := provider - {id}, true;
    }
    assert order[..|order|] == order;
    if !changed && migratedProviders == map[] {
      return;
    }
    raw := Outcome(doc, Run(provider, custom, marker, migratedProviders));
  }
}
