/** The webhook that stores AI suggestions: a read and a write of the whole anomaly per suggestion. */
module SaveAiSuggestions {
  import opened Store
  import opened Values

  datatype Item = Item(anomalyId: string, suggestion: string)

  /** JSON in and out, and the clock of the k-th turn. */
  datatype Context = Context(parse: string -> Option<Json>, stringify: Json -> string, clock: nat -> int)

  /** A JSON object whose actionType is one of the three known ones. */
  predicate Structured(ctx: Context, s: string) {
    match ctx.parse(s)
    case Some(JObj(fields)) =>
      "actionType" in fields && fields["actionType"] in {JStr("FILL"), JStr("DELETE"), JStr("KEEP")}
    case _ => false
  }

  /** Anything else is wrapped as KEEP, with its first hundred characters as the reason. */
  function Normalise(ctx: Context, s: string): string {
    if Structured(ctx, s) then s
    else
      ctx.stringify(JObj(map["actionType" := JStr("KEEP"), "value" := JNull,
                             "reason" := JStr(if |s| > 100 then s[..100] else s)]))
  }

  predicate Counts(db: Db, i: Item) {
    i.anomalyId != "" && i.suggestion != "" && i.anomalyId in db.rows
  }

  function Suggest(db: Db, ctx: Context, i: Item, now: int): Db {
    if Counts(db, i) then Saved(db, WithAi(Loaded(db, i.anomalyId).value, Normalise(ctx, i.suggestion), now)) else db
  }

  function SuggestAll(db: Db, ctx: Context, items: seq<Item>): (Db, nat) {
    if items == [] then (db, 0)
    else
      var n := |items| - 1;
      var (mid, saved) := SuggestAll(db, ctx, items[..n]);
      (Suggest(mid, ctx, items[n], ctx.clock(n)), saved + if Counts(mid, items[n]) then 1 else 0)
  }

  class SaveAiSuggestionsUseCase {
    const anomalies: AnomalyRepository
    const secret: string

    constructor (anomalies: AnomalyRepository, secret: string)
      ensures this.anomalies == anomalies && this.secret == secret
    {
      this.anomalies, this.secret := anomalies, secret;
    }

    /** None is the error raised for a wrong secret. */
    method Execute(secret: string, items: seq<Item>, ctx: Context) returns (r: Option<nat>)
      modifies anomalies
      ensures secret != this.secret ==> r.None? && anomalies.Content() == old(anomalies.Content())
      ensures secret == this.secret ==>
                r.Some? && (anomalies.Content(), r.value) == SuggestAll(old(anomalies.Content()), ctx, items)
    {
      if secret != this.secret {
        return None;
      }
      var saved := 0;
      for k := 0 to |items|
        invariant (anomalies.Content(), saved) == SuggestAll(old(anomalies.Content()), ctx, items[..k])
      {
        assert items[..k + 1][..k] == items[..k];
        var item := items[k];
        if item.anomalyId == "" || item.suggestion == "" {
          continue;
        }
        var anomaly := anomalies.FindById(item.anomalyId);
        if anomaly == null {
          continue;
        }
        anomaly.SetAiSuggestion(Normalise(ctx, item.suggestion), ctx.clock(k));
        anomalies.Save(anomaly);
        saved := saved + 1;
      }
      assert items[..|items|] == items;
      return Some(saved);
    }
  }

  /** An item with a suggestion for a stored anomaly. */
  ghost predicate Usable(db: Db, i: Item) {
    i.anomalyId in db.rows && |i.anomalyId| > 0 && |i.suggestion| > 0
  }

  ghost predicate KnownAction(ctx: Context, s: string, doc: Json) {
    && ctx.parse(s) == Some(doc) && doc.JObj? && "actionType" in doc.fields
    && (doc.fields["actionType"] == JStr("FILL") || doc.fields["actionType"] == JStr("DELETE")
        || doc.fields["actionType"] == JStr("KEEP"))
  }

  /** A suggestion with a known action is stored as it came, and any other as the reason of a KEEP. */
  ghost predicate StoredText(ctx: Context, s: string, stored: string) {
    if exists doc :: KnownAction(ctx, s, doc) then stored == s
    else exists reason :: IsReason(s, reason)
                          && stored == ctx.stringify(JObj(map["actionType" := JStr("KEEP"), "value" := JNull,
                                                              "reason" := JStr(reason)]))
  }

  /** The suggestion, or its first hundred characters. */
  ghost predicate IsReason(s: string, reason: string) {
    reason <= s && (reason == s || |reason| == 100) && |reason| <= 100
  }

  lemma NormaliseStores(ctx: Context, s: string)
    ensures StoredText(ctx, s, Normalise(ctx, s))
  {
    assert Structured(ctx, s) <==> exists doc :: KnownAction(ctx, s, doc) by {
      if Structured(ctx, s) {
        assert KnownAction(ctx, s, ctx.parse(s).value);
      }
    }
    assert IsReason(s, if |s| > 100 then s[..100] else s);
  }

  ghost function LastItem(db: Db, items: seq<Item>, id: string): (k: Option<nat>)
    ensures k.Some? ==> k.value < |items| && items[k.value].anomalyId == id && Usable(db, items[k.value])
    ensures forall j :: 0 <= j < |items| && items[j].anomalyId == id && Usable(db, items[j]) ==> k.Some? && j <= k.value
  {
    if items == [] then None
    else if items[|items| - 1].anomalyId == id && Usable(db, items[|items| - 1]) then Some(|items| - 1)
    else LastItem(db, items[..|items| - 1], id)
  }

  lemma SuggestEffect(db: Db, ctx: Context, i: Item, now: int)
    requires Keyed(db)
    ensures var after := Suggest(db, ctx, i, now);
            && Keyed(after) && after.verdicts == db.verdicts
            && after.rows == if Counts(db, i)
                             then db.rows[i.anomalyId := db.rows[i.anomalyId].(
                                            ai := Some(Normalise(ctx, i.suggestion)), updatedAt := now)]
                             else db.rows
  {
    hide Normalise;
    if Counts(db, i) {
      assert Suggest(db, ctx, i, now).verdicts == db.verdicts;
    }
  }

  /** The positions of the usable items. */
  ghost function UsableItems(db: Db, items: seq<Item>): set<nat> {
    set k: nat | k < |items| && Usable(db, items[k])
  }

  lemma OneMoreUsable(db: Db, items: seq<Item>)
    requires items != []
    ensures var n := |items| - 1;
            |UsableItems(db, items)| == |UsableItems(db, items[..n])| + if Usable(db, items[n]) then 1 else 0
  {
    hide Usable;
    var n := |items| - 1;
    assert UsableItems(db, items) == UsableItems(db, items[..n]) + if Usable(db, items[n]) then {n} else {};
  }

  /**
   * Run on its own, the webhook leaves every status and every decision alone, gives each anomaly its
   * last usable suggestion, and counts the usable items.
   */
  lemma {:induction false} SuggestOnly(db: Db, ctx: Context, items: seq<Item>)
    requires Keyed(db)
    ensures var (after, saved) := SuggestAll(db, ctx, items);
            && Keyed(after) && after.verdicts == db.verdicts && after.rows.Keys == db.rows.Keys
            && saved == |UsableItems(db, items)|
            && forall id :: id in db.rows ==> Suggested(db, ctx, items, id, after.rows[id])
  {
    hide Normalise, Suggest, Suggested, Usable;
    if items == [] {
      forall id | id in db.rows
        ensures Suggested(db, ctx, items, id, db.rows[id])
      {
        NothingSuggested(db, ctx, id);
      }
    } else {
      var n := |items| - 1;
      SuggestOnly(db, ctx, items[..n]);
      var (mid, saved) := SuggestAll(db, ctx, items[..n]);
      SuggestEffect(mid, ctx, items[n], ctx.clock(n));
      OneMoreUsable(db, items);
      CountsIsUsable(db, mid, items[n]);
      forall id | id in db.rows
        ensures Suggested(db, ctx, items, id, Suggest(mid, ctx, items[n], ctx.clock(n)).rows[id])
      {
        SuggestedNext(db, ctx, items, id, mid.rows[id]);
      }
    }
  }

  /** Row `id` afterwards: the last usable suggestion for it, or as it was. */
  ghost predicate Suggested(db: Db, ctx: Context, items: seq<Item>, id: string, after: Row)
    requires id in db.rows
  {
    match LastItem(db, items, id)
    case None => after == db.rows[id]
    case Some(k) =>
      && after.ai.Some? && StoredText(ctx, items[k].suggestion, after.ai.value)
      && after == db.rows[id].(ai := after.ai, updatedAt := ctx.clock(k))
  }

  lemma NothingSuggested(db: Db, ctx: Context, id: string)
    requires id in db.rows
    ensures Suggested(db, ctx, [], id, db.rows[id])
  {
  }

  lemma CountsIsUsable(db: Db, mid: Db, i: Item)
    requires mid.rows.Keys == db.rows.Keys
    ensures Counts(mid, i) <==> Usable(db, i)
  {
  }

  lemma SuggestedNext(db: Db, ctx: Context, items: seq<Item>, id: string, mid: Row)
    requires items != [] && id in db.rows && Suggested(db, ctx, items[..|items| - 1], id, mid)
    ensures var n, i := |items| - 1, items[|items| - 1];
            Suggested(db, ctx, items, id,
                      if i.anomalyId == id && Usable(db, i)
                      then mid.(ai := Some(Normalise(ctx, i.suggestion)), updatedAt := ctx.clock(n)) else mid)
  {
    NormaliseStores(ctx, items[|items| - 1].suggestion);
    hide Normalise, StoredText, Usable;
  }
}
