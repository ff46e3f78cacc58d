/**
 * The incremental sync of the Chinese locale table from the English one:
 * every English key gets an override, its existing translation, or a fresh
 * translation, and the English table becomes the new source snapshot.
 */
module LocaleSync {
  import opened Wrappers
  import opened Strings
  import Json
  import Translate

  /** Fixed translations that win over anything stored or translated. */
  const KeyOverrides: map<string, string> := map[
    "auth.pair_button" := "配对",
    "common.actions" := "操作",
    "common.name" := "名称",
    "common.save" := "保存",
    "common.status" := "状态",
    "cost.request_count" := "请求数",
    "cost.requests" := "请求数",
    "cron.enable" := "启用",
    "dashboard.status" := "状态",
    "health.component" := "组件",
    "health.status" := "状态",
    "integrations.active" := "已启用",
    "integrations.available" := "可用",
    "integrations.status" := "状态",
    "memory.key" := "键",
    "nav.agent" := "助手",
    "nav.doctor" := "诊断",
    "nav.memory" := "记忆库",
    "tools.name" := "名称"
  ]

  /** `table.get(key)`: the entry, or `None` when the key is missing. */
  function Get(table: map<string, Json.Value>, key: string): Option<Json.Value> {
    if key in table then Some(table[key]) else None
  }

  /**
   * The existing translation may be reused: it is a string that is not blank
   * and the English text it was made from equals the current English text.
   */
  predicate Reusable(enValue: string, currentZh: Option<Json.Value>, previousSource: Option<Json.Value>) {
    && currentZh.Some? && currentZh.value.String? && !IsBlank(currentZh.value.str)
    && previousSource == Some(Json.String(enValue))
  }

  /** Python's `translated or en_value`. */
  function NonEmptyOr(translated: string, fallback: string): string {
    if translated != "" then translated else fallback
  }

  /** The Chinese text one key gets, given the override table in force. */
  function NextValue(overrides: map<string, string>, key: string, enValue: string,
                     zhExisting: map<string, Json.Value>, metaExisting: map<string, Json.Value>,
                     translate: string -> string): string
  {
    if key in overrides then overrides[key]
    else if Reusable(enValue, Get(zhExisting, key), Get(metaExisting, key)) then Get(zhExisting, key).value.str
    else NonEmptyOr(translate(enValue), enValue)
  }

  /** The new Chinese table: one entry per English key, and no other. */
  function SyncedTable(overrides: map<string, string>, en: map<string, string>,
                       zhExisting: map<string, Json.Value>, metaExisting: map<string, Json.Value>,
                       translate: string -> string): map<string, string>
  {
    map key | key in en :: NextValue(overrides, key, en[key], zhExisting, metaExisting, translate)
  }

  /** The key goes to the translator: it is neither overridden nor reusable. */
  predicate NeedsTranslation(overrides: map<string, string>, key: string, enValue: string,
                             zhExisting: map<string, Json.Value>, metaExisting: map<string, Json.Value>)
  {
    key !in overrides && !Reusable(enValue, Get(zhExisting, key), Get(metaExisting, key))
  }

  /** The keys sent to the translator. */
  function TranslatedKeys(overrides: map<string, string>, en: map<string, string>,
                          zhExisting: map<string, Json.Value>, metaExisting: map<string, Json.Value>): set<string>
  {
    set key | key in en && NeedsTranslation(overrides, key, en[key], zhExisting, metaExisting)
  }

  /** The new table has exactly the English keys: keys dropped from the English table are dropped. */
  lemma SyncedTableKeys(overrides: map<string, string>, en: map<string, string>,
                        zhExisting: map<string, Json.Value>, metaExisting: map<string, Json.Value>,
                        translate: string -> string)
    ensures SyncedTable(overrides, en, zhExisting, metaExisting, translate).Keys == en.Keys
    ensures TranslatedKeys(overrides, en, zhExisting, metaExisting) <= en.Keys
  {
  }

  /** A written table as it reads back from disk. */
  function AsJson(table: map<string, string>): map<string, Json.Value> {
    map key | key in table :: Json.String(table[key])
  }

  /**
   * The body of the loop for one key: the override, else the reusable
   * existing translation, else a fresh translation falling back to the
   * English text. `reused` is false exactly when the translator was called.
   */
  method MergeKey(overrides: map<string, string>, key: string, enValue: string,
                  zhExisting: map<string, Json.Value>, metaExisting: map<string, Json.Value>,
                  translate: string -> string)
    returns (value: string, reused: bool)
    ensures value == NextValue(overrides, key, enValue, zhExisting, metaExisting, translate)
    ensures reused <==> !NeedsTranslation(overrides, key, enValue, zhExisting, metaExisting)
    ensures key in overrides ==> reused && value == overrides[key]
    ensures !reused ==> value == (if translate(enValue) != "" then translate(enValue) else enValue)
  {
    if key in overrides {
      return overrides[key], true;
    }
    var currentZh := Get(zhExisting, key);
    var previousSource := Get(metaExisting, key);
    if currentZh.Some? && currentZh.value.String? && !IsBlank(currentZh.value.str)
       && previousSource == Some(Json.String(enValue)) {
      return currentZh.value.str, true;
    }
    var translated := translate(enValue);
    value := if translated != "" then translated else enValue;
    reused := false;
  }

  /**
   * The loop's invariant, in three parts. The tables: every handled key has
   * its entry of `target` and its English source in the snapshot.
   */
  ghost predicate Tables(en: map<string, string>, target: map<string, string>,
                         zhNext: map<string, string>, metaNext: map<string, string>)
  {
    && (forall key :: key in zhNext ==> key in en && key in target && zhNext[key] == target[key])
    && (forall key :: key in metaNext <==> key in zhNext)
    && (forall key :: key in metaNext ==> key in en && metaNext[key] == en[key])
  }

  /** The first `i` sorted keys are the handled ones; the keys still to come are not in the table yet. */
  ghost predicate Fresh(keys: seq<string>, i: nat, zhNext: map<string, string>)
  {
    && i <= |keys|
    && |zhNext.Keys| == i
    && (forall j :: i <= j < |keys| ==> keys[j] !in zhNext)
  }

  /** The counters split the handled keys into those in `need` (sent to the translator) and the rest. */
  ghost predicate Counts(need: set<string>, i: nat, zhNext: map<string, string>,
                         translatedDone: set<string>, reusedCount: nat, translatedCount: nat)
  {
    && (forall key :: key in translatedDone <==> key in zhNext && key in need)
    && translatedCount == |translatedDone|
    && reusedCount + translatedCount == i
  }

  /** The tables part survives handling the next key. */
  lemma TablesStep(en: map<string, string>, target: map<string, string>,
                   zhNext: map<string, string>, metaNext: map<string, string>, key: string, value: string)
    requires Tables(en, target, zhNext, metaNext)
    requires key in en && key in target && value == target[key]
    ensures Tables(en, target, zhNext[key := value], metaNext[key := en[key]])
  {
  }

  /** The freshness part survives handling the next key, because the keys do not repeat. */
  lemma FreshStep(keys: seq<string>, i: nat, zhNext: map<string, string>, value: string)
    requires Fresh(keys, i, zhNext) && i < |keys|
    requires forall j :: i < j < |keys| ==> keys[j] != keys[i]
    ensures Fresh(keys, i + 1, zhNext[keys[i] := value])
  {
    assert zhNext[keys[i] := value].Keys == zhNext.Keys + {keys[i]};
  }

  /** The counting part survives handling the next key: exactly one counter goes up. */
  lemma CountsStep(need: set<string>, i: nat, zhNext: map<string, string>,
                   translatedDone: set<string>, reusedCount: nat, translatedCount: nat,
                   key: string, value: string, reused: bool)
    requires Counts(need, i, zhNext, translatedDone, reusedCount, translatedCount)
    requires key !in zhNext
    requires reused <==> key !in need
    ensures Counts(need, i + 1, zhNext[key := value],
                   if reused then translatedDone else translatedDone + {key},
                   if reused then reusedCount + 1 else reusedCount,
                   if reused then translatedCount else translatedCount + 1)
  {
  }

  /** A subset as large as its superset is the whole superset. */
  lemma SameSizeSubset(a: set<string>, b: set<string>)
    requires a <= b && |a| == |b|
    ensures a == b
  {
    assert |b - a| == |b| - |a|;
  }

  /** Once every key is handled, the loop has built `target`, the snapshot and the counts. */
  lemma LoopDone(en: map<string, string>, target: map<string, string>, need: set<string>,
                 keys: seq<string>,
                 zhNext: map<string, string>, metaNext: map<string, string>,
                 translatedDone: set<string>, reusedCount: nat, translatedCount: nat)
    requires Tables(en, target, zhNext, metaNext) && Fresh(keys, |keys|, zhNext)
    requires Counts(need, |keys|, zhNext, translatedDone, reusedCount, translatedCount)
    requires |keys| == |en| && target.Keys == en.Keys && need <= en.Keys
    ensures zhNext == target
    ensures metaNext == en
    ensures translatedCount == |need|
    ensures reusedCount == |en.Keys - need|
  {
    assert zhNext.Keys <= en.Keys;
    SameSizeSubset(zhNext.Keys, en.Keys);
    assert translatedDone == need;
    assert |en.Keys - need| == |en.Keys| - |need|;
  }

  /**
   * The loop of one sync run: the keys in the given order, each handled by
   * MergeKey under the given override table.
   */
  method MergeInOrder(overrides: map<string, string>, en: map<string, string>,
                      zhExisting: map<string, Json.Value>, metaExisting: map<string, Json.Value>,
                      translate: string -> string, keys: seq<string>)
    returns (zhNext: map<string, string>, metaNext: map<string, string>,
             reusedCount: nat, translatedCount: nat)
    requires |keys| == |en|
    requires forall i :: 0 <= i < |keys| ==> keys[i] in en
    requires forall i, j :: 0 <= i < j < |keys| ==> keys[i] != keys[j]
    ensures zhNext == SyncedTable(overrides, en, zhExisting, metaExisting, translate)
    ensures metaNext == en
    ensures translatedCount == |TranslatedKeys(overrides, en, zhExisting, metaExisting)|
    ensures reusedCount == |en.Keys - TranslatedKeys(overrides, en, zhExisting, metaExisting)|
  {
    zhNext, metaNext := map[], map[];
    translatedCount, reusedCount := 0, 0;
    ghost var target := SyncedTable(overrides, en, zhExisting, metaExisting, translate);
    ghost var need := TranslatedKeys(overrides, en, zhExisting, metaExisting);
    ghost var translatedDone: set<string> := {};
    for i := 0 to |keys|
      invariant Tables(en, target, zhNext, metaNext)
      invariant Fresh(keys, i, zhNext)
      invariant Counts(need, i, zhNext, translatedDone, reusedCount, translatedCount)
    {
      var key := keys[i];
      var enValue := en[key];
      var value, reused := MergeKey(overrides, key, enValue, zhExisting, metaExisting, translate);
      TablesStep(en, target, zhNext, metaNext, key, value);
      FreshStep(keys, i, zhNext, value);
      CountsStep(need, i, zhNext, translatedDone, reusedCount, translatedCount, key, value, reused);
      zhNext := zhNext[key := value];
      metaNext := metaNext[key := enValue];
      if reused {
        reusedCount := reusedCount + 1;
      } else {
        translatedCount := translatedCount + 1;
        translatedDone := translatedDone + {key};
      }
    }
    SyncedTableKeys(overrides, en, zhExisting, metaExisting, translate);
    LoopDone(en, target, need, keys, zhNext, metaNext, translatedDone, reusedCount, translatedCount);
  }

  /**
   * One sync run under a given override table: the English keys in sorted
   * order, merged one by one. `order` is the order in which keys enter the
   * new tables, which is the order in which they are written out.
   */
  method SyncWith(overrides: map<string, string>, en: map<string, string>,
                  zhExisting: map<string, Json.Value>, metaExisting: map<string, Json.Value>,
                  translate: string -> string)
    returns (zhNext: map<string, string>, metaNext: map<string, string>, order: seq<string>,
             reusedCount: nat, translatedCount: nat)
    ensures zhNext == SyncedTable(overrides, en, zhExisting, metaExisting, translate)
    ensures metaNext == en
    ensures StrictlyIncreasing(order) && |order| == |en|
    ensures forall key :: key in order <==> key in en
    ensures translatedCount == |TranslatedKeys(overrides, en, zhExisting, metaExisting)|
    ensures reusedCount == |en.Keys - TranslatedKeys(overrides, en, zhExisting, metaExisting)|
  {
    order := SortedKeys(en.Keys);
    IncreasingIsDistinct(order);
    zhNext, metaNext, reusedCount, translatedCount :=
      MergeInOrder(overrides, en, zhExisting, metaExisting, translate, order);
  }

  /** One run of the sync script with its fixed override table. */
  method Sync(en: map<string, string>, zhExisting: map<string, Json.Value>,
              metaExisting: map<string, Json.Value>, translate: string -> string)
    returns (zhNext: map<string, string>, metaNext: map<string, string>, order: seq<string>,
             reusedCount: nat, translatedCount: nat)
    ensures zhNext == SyncedTable(KeyOverrides, en, zhExisting, metaExisting, translate)
    ensures metaNext == en
    ensures StrictlyIncreasing(order) && |order| == |en|
    ensures forall key :: key in order <==> key in en
    ensures translatedCount == |TranslatedKeys(KeyOverrides, en, zhExisting, metaExisting)|
    ensures reusedCount + translatedCount == |en|
  {
    zhNext, metaNext, order, reusedCount, translatedCount :=
      SyncWith(KeyOverrides, en, zhExisting, metaExisting, translate);
  }

  /** No override is blank, so an overridden key never ends up blank. */
  lemma OverridesNotBlank()
    ensures forall key :: key in KeyOverrides ==> KeyOverrides[key] != [] && !IsSpace(KeyOverrides[key][0])
  {
  }

  /**
   * On a later run over the tables the first run wrote, a key goes to the
   * translator exactly when it is not overridden and it is new, its English
   * text changed, or the text written for it was blank.
   */
  lemma RerunTranslatesChangedOrBlank(overrides: map<string, string>, en: map<string, string>,
                                      zhExisting: map<string, Json.Value>, metaExisting: map<string, Json.Value>,
                                      translate: string -> string, enNew: map<string, string>)
    ensures var first := SyncedTable(overrides, en, zhExisting, metaExisting, translate);
            TranslatedKeys(overrides, enNew, AsJson(first), AsJson(en)) ==
              set key | key in enNew && key !in overrides &&
                        (key !in en || en[key] != enNew[key] || IsBlank(first[key]))
  {
  }

  /**
   * With the real translator a non-overridden key is written blank only when
   * its English text is blank, and then the English text itself is written.
   */
  lemma {:induction false} BlankOnlyFromBlankEnglish(overrides: map<string, string>, en: map<string, string>,
                                                     zhExisting: map<string, Json.Value>,
                                                     metaExisting: map<string, Json.Value>,
                                                     fetch: (string, nat) -> Translate.Response, key: string)
    requires key in en && key !in overrides
    requires IsBlank(SyncedTable(overrides, en, zhExisting, metaExisting, Translate.Translator(fetch))[key])
    ensures IsBlank(en[key])
    ensures SyncedTable(overrides, en, zhExisting, metaExisting, Translate.Translator(fetch))[key] == en[key]
  {
    var enValue := en[key];
    var translated := Translate.TranslateEnToZh(enValue, fetch);
    assert Translate.Translator(fetch)(enValue) == translated;
    Translate.TranslationBlankIffTextBlank(enValue, fetch);
    Translate.BlankTextIsNotSent(enValue, fetch, fetch);
  }

  /**
   * With the real translator and the fixed overrides, every key whose English
   * text is not blank gets a Chinese text that is not blank.
   */
  lemma SyncedNotBlank(en: map<string, string>, zhExisting: map<string, Json.Value>,
                       metaExisting: map<string, Json.Value>, fetch: (string, nat) -> Translate.Response)
    ensures var zhNext := SyncedTable(KeyOverrides, en, zhExisting, metaExisting, Translate.Translator(fetch));
            forall key :: key in en && !IsBlank(en[key]) ==> !IsBlank(zhNext[key])
  {
    var zhNext := SyncedTable(KeyOverrides, en, zhExisting, metaExisting, Translate.Translator(fetch));
    OverridesNotBlank();
    forall key | key in en && !IsBlank(en[key])
      ensures !IsBlank(zhNext[key])
    {
      if key !in KeyOverrides && IsBlank(zhNext[key]) {
        BlankOnlyFromBlankEnglish(KeyOverrides, en, zhExisting, metaExisting, fetch, key);
      }
    }
  }

  /**
   * Running again on unchanged English text with the real translator sends
   * only blank texts to the translator, which returns those without a request.
   */
  lemma RerunSendsOnlyBlank(overrides: map<string, string>, en: map<string, string>,
                            zhExisting: map<string, Json.Value>, metaExisting: map<string, Json.Value>,
                            fetch: (string, nat) -> Translate.Response,
                            fetchAgain: (string, nat) -> Translate.Response)
    ensures var first := SyncedTable(overrides, en, zhExisting, metaExisting, Translate.Translator(fetch));
            forall key :: key in TranslatedKeys(overrides, en, AsJson(first), AsJson(en)) ==>
              IsBlank(en[key]) && Translate.Translator(fetchAgain)(en[key]) == en[key]
  {
    var first := SyncedTable(overrides, en, zhExisting, metaExisting, Translate.Translator(fetch));
    RerunTranslatesChangedOrBlank(overrides, en, zhExisting, metaExisting, Translate.Translator(fetch), en);
    forall key | key in TranslatedKeys(overrides, en, AsJson(first), AsJson(en))
      ensures IsBlank(en[key]) && Translate.Translator(fetchAgain)(en[key]) == en[key]
    {
      BlankOnlyFromBlankEnglish(overrides, en, zhExisting, metaExisting, fetch, key);
      Translate.BlankTextIsNotSent(en[key], fetchAgain, fetchAgain);
    }
  }

  /**
   * When every English key is overridden, the stored tables and the
   * translator play no part: the run writes the same table and translates
   * nothing.
   */
  lemma AllOverriddenIgnoresStored(overrides: map<string, string>, en: map<string, string>,
                                   zhExisting: map<string, Json.Value>, metaExisting: map<string, Json.Value>,
                                   translate: string -> string,
                                   zhOther: map<string, Json.Value>, metaOther: map<string, Json.Value>,
                                   translateOther: string -> string)
    requires forall key :: key in en ==> key in overrides
    ensures SyncedTable(overrides, en, zhExisting, metaExisting, translate) ==
            SyncedTable(overrides, en, zhOther, metaOther, translateOther)
    ensures TranslatedKeys(overrides, en, zhExisting, metaExisting) == {}
  {
  }

  /** One key of a rerun on unchanged English text keeps the text the first run wrote. */
  lemma ResyncKeyStable(overrides: map<string, string>, en: map<string, string>,
                        zhExisting: map<string, Json.Value>, metaExisting: map<string, Json.Value>,
                        fetch: (string, nat) -> Translate.Response, fetchAgain: (string, nat) -> Translate.Response,
                        key: string)
    requires key in en
    ensures var first := SyncedTable(overrides, en, zhExisting, metaExisting, Translate.Translator(fetch));
            NextValue(overrides, key, en[key], AsJson(first), AsJson(en), Translate.Translator(fetchAgain)) == first[key]
  {
    var first := SyncedTable(overrides, en, zhExisting, metaExisting, Translate.Translator(fetch));
    if key !in overrides && IsBlank(first[key]) {
      BlankOnlyFromBlankEnglish(overrides, en, zhExisting, metaExisting, fetch, key);
      Translate.BlankTextIsNotSent(en[key], fetchAgain, fetchAgain);
      assert Translate.Translator(fetchAgain)(en[key]) == en[key];
    }
  }

  /**
   * The sync is idempotent: running it again on unchanged English text, over
   * the tables the first run wrote, writes the same Chinese table whatever
   * the translation service answers the second time.
   */
  lemma ResyncIsStable(overrides: map<string, string>, en: map<string, string>,
                       zhExisting: map<string, Json.Value>, metaExisting: map<string, Json.Value>,
                       fetch: (string, nat) -> Translate.Response, fetchAgain: (string, nat) -> Translate.Response)
    ensures var first := SyncedTable(overrides, en, zhExisting, metaExisting, Translate.Translator(fetch));
            SyncedTable(overrides, en, AsJson(first), AsJson(en), Translate.Translator(fetchAgain)) == first
  {
    var first := SyncedTable(overrides, en, zhExisting, metaExisting, Translate.Translator(fetch));
    var second := SyncedTable(overrides, en, AsJson(first), AsJson(en), Translate.Translator(fetchAgain));
    SyncedTableKeys(overrides, en, zhExisting, metaExisting, Translate.Translator(fetch));
    SyncedTableKeys(overrides, en, AsJson(first), AsJson(en), Translate.Translator(fetchAgain));
    forall key | key in en
      ensures second[key] == first[key]
    {
      ResyncKeyStable(overrides, en, zhExisting, metaExisting, fetch, fetchAgain, key);
    }
  }
}
