/** What a reconciliation run achieves, keeps and leaves alone. */
module Reconciliation {
  import opened Strings
  import opened VoiceTokens

  /** Every token the run writes, in order. */
  function Writes(models: Models): seq<Write> {
    Plan(models, |models.ids|)
  }

  predicate IsWritten(plan: seq<Write>, name: string) {
    exists k :: 0 <= k < |plan| && plan[k].name == name
  }

  /** `k` is the last write to its name: what the token ends up as. */
  predicate IsLastWrite(plan: seq<Write>, k: nat) {
    k < |plan| && forall j :: k < j < |plan| ==> plan[j].name != plan[k].name
  }

  // ----- the plan

  predicate FromModel(models: Models, w: Write) {
    w.id in models.ids && models.build(w.id).Some? && HasPrefix(w.name) &&
    w.meta.modelName == models.build(w.id).value.modelName && (w.alias ==> WantsAlias(models, w.id))
  }

  lemma {:induction false} PlanIsFromModels(models: Models, n: nat)
    requires n <= |models.ids|
    ensures forall k :: 0 <= k < |Plan(models, n)| ==> FromModel(models, Plan(models, n)[k])
  {
    if n > 0 {
      PlanIsFromModels(models, n - 1);
      var ws := WritesFor(models, models.ids[n - 1]);
      assert forall k :: 0 <= k < |ws| ==> FromModel(models, ws[k]);
    }
  }

  /**
   What is written: the model's own metadata under `sherpa-` and its id; and where the alias was requested and the model
   is not en-US, a copy under that name and `-enus` which says en-US, with everything else the model's.
   */
  predicate CarriesModel(models: Models, w: Write) {
    models.build(w.id).Some? &&
    var m := models.build(w.id).value;
    if !w.alias then w.name == "sherpa-" + w.id && w.meta == m
    else
      w.name == "sherpa-" + w.id + "-enus" && models.requested(w.id) && !EqualsIgnoreCase(m.locale, "en-US") &&
      w.meta.locale == "en-US" && w.meta.languageHexChain == "409" &&
      w.meta.friendlyName == m.friendlyName + " (en-US alias)" &&
      w.meta.displayName == m.displayName + " (en-US alias)" && SameVoice(w.meta, m)
  }

  predicate SameVoice(m: Meta, n: Meta) {
    m.gender == n.gender && m.modelType == n.modelType && m.modelPath == n.modelPath && m.tokensPath == n.tokensPath &&
    m.dataDir == n.dataDir && m.voicesPath == n.voicesPath && m.acousticModel == n.acousticModel &&
    m.vocoder == n.vocoder && m.sampleRate == n.sampleRate && m.speakerCount == n.speakerCount &&
    m.modelName == n.modelName && m.quality == n.quality
  }

  lemma {:induction false} PlanCarriesModels(models: Models, n: nat)
    requires n <= |models.ids|
    ensures forall k :: 0 <= k < |Plan(models, n)| ==> CarriesModel(models, Plan(models, n)[k])
  {
    hide CarriesModel;
    if n > 0 {
      PlanCarriesModels(models, n - 1);
      WritesCarryModel(models, models.ids[n - 1]);
    }
  }

  lemma WritesCarryModel(models: Models, id: string)
    ensures forall k :: 0 <= k < |WritesFor(models, id)| ==> CarriesModel(models, WritesFor(models, id)[k])
  {
    hide EqualsIgnoreCase;
  }

  lemma FirstWrites(models: Models, id: string)
    requires models.build(id).Some?
    ensures var ws, m := WritesFor(models, id), models.build(id).value;
      Plans(ws, id, false) && (models.requested(id) && !EqualsIgnoreCase(m.locale, "en-US") ==> Plans(ws, id, true))
  {
    hide EqualsIgnoreCase;
    var ws := WritesFor(models, id);
    assert ws[0].id == id && !ws[0].alias;
    assert |ws| == 2 ==> ws[1].id == id && ws[1].alias;
  }

  /** The plan has a write for the model, or one for its alias. */
  predicate Plans(plan: seq<Write>, id: string, alias: bool) {
    exists k :: 0 <= k < |plan| && plan[k].id == id && plan[k].alias == alias
  }

  lemma PlansMore(plan: seq<Write>, more: seq<Write>, id: string, alias: bool)
    ensures Plans(plan, id, alias) || Plans(more, id, alias) ==> Plans(plan + more, id, alias)
  {
    var all := plan + more;
    if k :| 0 <= k < |plan| && plan[k].id == id && plan[k].alias == alias {
      assert all[k] == plan[k];
    } else if k :| 0 <= k < |more| && more[k].id == id && more[k].alias == alias {
      assert all[|plan| + k] == more[k];
    }
  }

  lemma {:induction false} PlanHas(models: Models, n: nat, i: nat)
    requires i < n <= |models.ids| && models.build(models.ids[i]).Some?
    ensures Plans(Plan(models, n), models.ids[i], false)
    ensures models.requested(models.ids[i]) && !EqualsIgnoreCase(models.build(models.ids[i]).value.locale, "en-US") ==>
      Plans(Plan(models, n), models.ids[i], true)
  {
    hide EqualsIgnoreCase, WritesFor, Plans;
    var id, ws := models.ids[i], WritesFor(models, models.ids[n - 1]);
    PlansMore(Plan(models, n - 1), ws, id, false);
    PlansMore(Plan(models, n - 1), ws, id, true);
    if i == n - 1 {
      FirstWrites(models, id);
    } else {
      PlanHas(models, n - 1, i);
    }
  }

  /** Every usable model is written, and its alias exactly where it was requested and the model is not en-US. */
  lemma ModelsArePlanned(models: Models, i: nat)
    requires i < |models.ids| && models.build(models.ids[i]).Some?
    ensures var id, plan := models.ids[i], Writes(models);
      Plans(plan, id, false) &&
      (Plans(plan, id, true) <==> models.requested(id) && !EqualsIgnoreCase(models.build(id).value.locale, "en-US"))
  {
    hide Plan, EqualsIgnoreCase, SameVoice;
    PlanHas(models, |models.ids|, i);
    PlanCarriesModels(models, |models.ids|);
  }

  // ----- the effect of all writes on one token

  function Compose(u: Update, u': Update): Update {
    Update(u.del + u'.del, (u.put - u'.del) + u'.put)
  }

  lemma ComposeApplies(t: Token, u: Update, u': Update)
    ensures ApplyUpdate(ApplyUpdate(t, u), u') == ApplyUpdate(t, Compose(u, u'))
  {
  }

  lemma ApplyTwice(t: Token, u: Update)
    ensures ApplyUpdate(ApplyUpdate(t, u), u) == ApplyUpdate(t, u)
  {
  }

  /** All updates that the plan makes to the token `name`, as one. */
  function Combined(plan: seq<Write>, name: string): Update {
    if plan == [] then Update({}, map[])
    else if Last(plan).name == name then
      Compose(Combined(Front(plan), name), TokenUpdate(Last(plan).meta, Last(plan).alias))
    else Combined(Front(plan), name)
  }

  lemma {:induction false} PutAllAt(root: Root, plan: seq<Write>, name: string)
    ensures name in PutAll(root, plan) <==> name in root || IsWritten(plan, name)
    ensures TokenAt(PutAll(root, plan), name) == ApplyUpdate(TokenAt(root, name), Combined(plan, name))
    ensures !IsWritten(plan, name) ==> TokenAt(PutAll(root, plan), name) == TokenAt(root, name)
  {
    hide TokenUpdate, ApplyUpdate, Compose;
    if plan == [] {
      NoUpdate(TokenAt(root, name));
    } else {
      var rest, w := Front(plan), Last(plan);
      PutAllAt(root, rest, name);
      assert forall k :: 0 <= k < |rest| ==> plan[k] == rest[k];
      assert plan[|rest|] == w;
      if w.name == name {
        assert IsWritten(plan, name);
        ComposeApplies(TokenAt(root, name), Combined(rest, name), TokenUpdate(w.meta, w.alias));
      } else {
        assert IsWritten(plan, name) <==> IsWritten(rest, name);
      }
    }
  }

  lemma NoUpdate(t: Token)
    ensures ApplyUpdate(t, Update({}, map[])) == t
  {
  }

  /**
   After any writes, a token holds the metadata of its last write, value by value; what that write does not name is what
   it was before it.
   */
  lemma {:induction false} LastWriteIsHeld(root: Root, plan: seq<Write>, k: nat)
    requires IsLastWrite(plan, k)
    ensures var w := plan[k];
      HoldsMeta(TokenAt(PutAll(root, plan), w.name), TokenAt(PutAll(root, plan[..k]), w.name), w.meta, w.alias)
  {
    hide TokenUpdate, ApplyUpdate, HoldsMeta;
    var rest, w := Front(plan), Last(plan);
    if k == |plan| - 1 {
      UpdateHoldsMeta(TokenAt(PutAll(root, rest), w.name), w.meta, w.alias);
    } else {
      assert IsLastWrite(rest, k) by {
        assert forall j :: k < j < |rest| ==> plan[j] == rest[j];
      }
      LastWriteIsHeld(root, rest, k);
      assert rest[..k] == plan[..k];
      assert w == plan[|plan| - 1];
    }
  }

  /** The flag and the model name of a token are those of its last write. */
  lemma LastWriteDecides(root: Root, plan: seq<Write>, k: nat)
    requires IsLastWrite(plan, k)
    ensures var t := TokenAt(PutAll(root, plan), plan[k].name);
      MODEL_NAME in t && t[MODEL_NAME] == Str(plan[k].meta.modelName) &&
      ALIAS_FLAG in t && t[ALIAS_FLAG] == DWord(if plan[k].alias then 1 else 0)
  {
    hide PutAll, HasConfig, KeepsOthers, IsBlank;
    LastWriteIsHeld(root, plan, k);
  }

  // ----- what survives

  /** The id that a token's own name spells. */
  function SpelledId(name: string): string
    requires HasPrefix(name)
  {
    var id := name[|PREFIX|..];
    if HasSuffix(id) then id[..|id| - |SUFFIX|] else id
  }

  /**
   Phase two finds a written token's model again and finds it valid, and finds the alias wanted if it takes the token
   for one. It reads the model's name from the token, or where that is blank from the token's own name.
   */
  predicate Survives(models: Models, w: Write)
    requires HasPrefix(w.name)
  {
    if !IsBlank(w.meta.modelName) then
      var id := FoldCase(TrimSpaces(w.meta.modelName));
      id in models.ids && (w.alias ==> WantsAlias(models, id))
    else
      var id := SpelledId(w.name);
      IsBlank(id) ||
      (id in models.ids && (w.alias || HasSuffix(w.name[|PREFIX|..]) ==> WantsAlias(models, id)))
  }

  /** No model id loses its identity when read back from its token: not blank, no blanks at either end. */
  predicate IdsReadBack(models: Models) {
    forall i :: 0 <= i < |models.ids| && models.build(models.ids[i]).Some? ==>
      ReadsBack(models.build(models.ids[i]).value.modelName, models.ids[i])
  }

  predicate ReadsBack(modelName: string, id: string) {
    !IsBlank(modelName) && FoldCase(TrimSpaces(modelName)) == id
  }

  lemma SurvivesIs(models: Models, t: Token, w: Write)
    requires HasPrefix(w.name)
    requires MODEL_NAME in t && t[MODEL_NAME] == Str(w.meta.modelName)
    requires ALIAS_FLAG in t && t[ALIAS_FLAG] == DWord(if w.alias then 1 else 0)
    ensures !IsStale(models, t, w.name) <==> Survives(models, w)
  {
    hide IsBlank, TrimSpaces, FoldCase, WantsAlias;
  }

  lemma WriteIsPrefixed(models: Models, k: nat)
    requires k < |Writes(models)|
    ensures HasPrefix(Writes(models)[k].name) && FromModel(models, Writes(models)[k])
  {
    PlanIsFromModels(models, |models.ids|);
    hide Plan, WantsAlias;
    assert FromModel(models, Writes(models)[k]);
  }

  /** A token written in this run is kept by the sweep if and only if it is found to belong to a valid model. */
  lemma WrittenSurvivesIff(models: Models, root: Root, k: nat)
    requires IsLastWrite(Writes(models), k)
    ensures HasPrefix(Writes(models)[k].name)
    ensures Writes(models)[k].name in Sync(models, root) <==> Survives(models, Writes(models)[k])
  {
    hide TokenUpdate, Plan, IsStale, Survives, PutAll, FromModel;
    var plan, w := Writes(models), Writes(models)[k];
    WriteIsPrefixed(models, k);
    LastWriteDecides(root, plan, k);
    PutAllAt(root, plan, w.name);
    SurvivesIs(models, TokenAt(PutAll(root, plan), w.name), w);
    assert IsWritten(plan, w.name);
  }

  lemma ReadBackSurvives(models: Models, w: Write)
    requires IdsReadBack(models) && FromModel(models, w)
    ensures Survives(models, w) && !IsBlank(w.meta.modelName) && FoldCase(TrimSpaces(w.meta.modelName)) == w.id
  {
    hide IsBlank, TrimSpaces, FoldCase, WantsAlias;
    var i :| 0 <= i < |models.ids| && models.ids[i] == w.id;
    assert ReadsBack(w.meta.modelName, w.id);
  }

  /** With ids that read back, nothing written in this run is removed. */
  lemma WrittenIsKept(models: Models, root: Root, name: string)
    requires IdsReadBack(models) && IsWritten(Writes(models), name)
    ensures name in Sync(models, root)
  {
    hide Plan, Sync, IdsReadBack, Survives, FromModel;
    var k := LastWriteOf(Writes(models), name);
    WriteIsPrefixed(models, k);
    ReadBackSurvives(models, Writes(models)[k]);
    WrittenSurvivesIff(models, root, k);
  }

  lemma {:induction false} LastWriteOf(plan: seq<Write>, name: string) returns (k: nat)
    requires IsWritten(plan, name)
    ensures IsLastWrite(plan, k) && plan[k].name == name
  {
    if Last(plan).name == name {
      k := |plan| - 1;
    } else {
      var i :| 0 <= i < |plan| && plan[i].name == name;
      assert Front(plan)[i] == plan[i];
      k := LastWriteOf(Front(plan), name);
      assert forall j :: k < j < |plan| ==> plan[j].name != name by {
        assert forall j :: k < j < |plan| - 1 ==> plan[j] == Front(plan)[j];
      }
    }
  }

  // ----- what is in the registry afterwards

  /** A token that was written and is still there holds the metadata of its last write. */
  lemma SyncedTokenHolds(models: Models, root: Root, k: nat)
    requires IsLastWrite(Writes(models), k) && Writes(models)[k].name in Sync(models, root)
    ensures var w := Writes(models)[k];
      HoldsMeta(Sync(models, root)[w.name], TokenAt(PutAll(root, Writes(models)[..k]), w.name), w.meta, w.alias)
  {
    hide PutAll, HoldsMeta, IsStale, Plan;
    LastWriteIsHeld(root, Writes(models), k);
  }

  predicate IsAliasWanted(models: Models, id: string) {
    models.build(id).Some? && models.requested(id) && !EqualsIgnoreCase(models.build(id).value.locale, "en-US")
  }

  /**
   The token is no Sherpa token, or spells no model at all, or its model is valid; and an alias, by its flag or by the
   name it is known by, is wanted.
   */
  predicate Belongs(models: Models, t: Token, name: string) {
    !("sherpa-" <= name) ||
    var flagged := match ValueAt(t, "", "SherpaCompatAlias") case Some(DWord(n)) => n != 0 case _ => false;
    var stored := match ValueAt(t, "Attributes", "SherpaModelName") case Some(Str(text)) => text case _ => [];
    if !IsBlank(stored) then
      var id := FoldCase(TrimSpaces(stored));
      id in models.ids && (flagged ==> IsAliasWanted(models, id))
    else
      var spelled := name[7..];
      var isAlias := |spelled| >= 5 && spelled[|spelled| - 5..] == "-enus";
      var id := if isAlias then spelled[..|spelled| - 5] else spelled;
      IsBlank(id) || (id in models.ids && (flagged || isAlias ==> IsAliasWanted(models, id)))
  }

  /** A token that is not written stays as it is or goes, as the model that it names or spells decides. */
  lemma UnwrittenStaysIff(models: Models, root: Root, name: string)
    requires !IsWritten(Writes(models), name)
    ensures name in Sync(models, root) <==> name in root && Belongs(models, root[name], name)
    ensures name in Sync(models, root) ==> Sync(models, root)[name] == root[name]
  {
    hide Plan, PutAll, IsStale, Belongs;
    PutAllAt(root, Writes(models), name);
    if name in root {
      StaleIff(models, root[name], name);
    }
  }

  lemma StaleIff(models: Models, t: Token, name: string)
    ensures IsStale(models, t, name) <==> !Belongs(models, t, name)
  {
    OneIsBlank([]);
    hide IsBlank, FoldCase, TrimSpaces, EqualsIgnoreCase;
    assert |PREFIX| == 7 && |SUFFIX| == 5;
    assert forall id :: WantsAlias(models, id) <==> IsAliasWanted(models, id);
    if HasPrefix(name) {
      var spelled := name[7..];
      assert spelled == name[|PREFIX|..];
      assert HasSuffix(spelled) <==> |spelled| >= 5 && spelled[|spelled| - 5..] == "-enus";
    }
  }

  // ----- main results

  /** Afterwards every resolvable Sherpa token names a valid model, and every alias left is requested and not en-US. */
  lemma TargetIsReached(models: Models, root: Root, name: string)
    requires name in Sync(models, root) && HasPrefix(name)
    ensures var r := Resolve(Sync(models, root)[name], name);
      (r.ok ==> r.modelId in models.ids) &&
      (r.ok && r.isCompatAlias ==> models.build(r.modelId).Some?) &&
      (r.ok && r.isCompatAlias ==> models.requested(r.modelId)) &&
      (r.ok && r.isCompatAlias ==> !EqualsIgnoreCase(models.build(r.modelId).value.locale, "en-US"))
  {
    hide Resolve, PutAll, Plan;
  }

  /** Tokens that are not Sherpa's are neither touched, removed nor created. */
  lemma OthersAreFramed(models: Models, root: Root, name: string)
    requires !HasPrefix(name)
    ensures name in Sync(models, root) <==> name in root
    ensures name in root ==> Sync(models, root)[name] == root[name]
  {
    hide Resolve, Plan, PutAll, TokenUpdate;
    PlanIsFromModels(models, |models.ids|);
    assert !IsWritten(Writes(models), name);
    PutAllAt(root, Writes(models), name);
  }

  // ----- whose token a token is

  predicate DistinctIds(models: Models) {
    forall i, j :: 0 <= i < j < |models.ids| ==> models.ids[i] != models.ids[j]
  }

  predicate IsUsable(models: Models, i: nat)
    requires i < |models.ids|
  {
    models.build(models.ids[i]).Some?
  }

  /** A model processed later, before model `n`, whose alias has the name of model `i`'s token. */
  predicate AliasTakes(models: Models, i: nat, n: nat)
    requires i < n <= |models.ids|
  {
    exists j :: i < j < n && WantsAlias(models, models.ids[j]) && models.ids[j] + SUFFIX == models.ids[i]
  }

  /** A model processed later, before model `n`, whose token has the name of model `i`'s alias. */
  predicate TokenTakes(models: Models, i: nat, n: nat)
    requires i < n <= |models.ids|
  {
    exists j :: i < j < n && IsUsable(models, j) && models.ids[j] == models.ids[i] + SUFFIX
  }

  lemma LastStays(plan: seq<Write>, more: seq<Write>, k: nat)
    requires IsLastWrite(plan, k) && forall i :: 0 <= i < |more| ==> more[i].name != plan[k].name
    ensures IsLastWrite(plan + more, k) && (plan + more)[k] == plan[k]
  {
    var all := plan + more;
    assert forall i :: |plan| <= i < |all| ==> all[i] == more[i - |plan|];
  }

  lemma LastIsNew(plan: seq<Write>, more: seq<Write>, i: nat)
    requires IsLastWrite(more, i)
    ensures IsLastWrite(plan + more, |plan| + i) && (plan + more)[|plan| + i] == more[i]
  {
    var all := plan + more;
    assert forall j :: |plan| <= j < |all| ==> all[j] == more[j - |plan|];
  }

  /** The writes for one model, and that their names differ. */
  lemma WritesOf(models: Models, id: string)
    requires models.build(id).Some?
    ensures var ws := WritesFor(models, id);
      |ws| == (if WantsAlias(models, id) then 2 else 1) && ws[0].name == PREFIX + id && ws[0].id == id &&
      !ws[0].alias && IsLastWrite(ws, 0) && (WantsAlias(models, id) ==>
        ws[1].name == PREFIX + id + SUFFIX && ws[1].id == id && ws[1].alias && IsLastWrite(ws, 1))
  {
    assert |PREFIX + id + SUFFIX| > |PREFIX + id|;
  }

  lemma NamesDiffer(a: string, b: string)
    ensures PREFIX + a == PREFIX + b <==> a == b
    ensures PREFIX + a + SUFFIX == PREFIX + b <==> a + SUFFIX == b
    ensures PREFIX + a + SUFFIX == PREFIX + b + SUFFIX <==> a == b
  {
    var p, q := PREFIX + a + SUFFIX, PREFIX + b + SUFFIX;
    assert (PREFIX + a)[|PREFIX|..] == a && (PREFIX + b)[|PREFIX|..] == b;
    assert p[|PREFIX|..] == a + SUFFIX && q[|PREFIX|..] == b + SUFFIX;
    assert p == PREFIX + (a + SUFFIX);
    assert (a + SUFFIX)[..|a + SUFFIX| - |SUFFIX|] == a && (b + SUFFIX)[..|b + SUFFIX| - |SUFFIX|] == b;
  }

  /** The last write to a model's token is its own, unless a later model's alias takes the name. */
  lemma {:induction false} MainIsLast(models: Models, n: nat, i: nat) returns (k: nat)
    requires i < n <= |models.ids| && IsUsable(models, i) && DistinctIds(models)
    ensures var plan := Plan(models, n);
      IsLastWrite(plan, k) && plan[k].name == PREFIX + models.ids[i] &&
      (plan[k].alias <==> AliasTakes(models, i, n)) && (!plan[k].alias ==> plan[k].id == models.ids[i])
  {
    hide WantsAlias, WritesFor, SUFFIX, PREFIX;
    var j, p := n - 1, Plan(models, n - 1);
    var id, ws := models.ids[j], WritesFor(models, models.ids[j]);
    NamesDiffer(id, models.ids[i]);
    if i == j {
      WritesOf(models, id);
      LastIsNew(p, ws, 0);
      k := |p|;
    } else {
      k := MainIsLast(models, j, i);
      TakesNext(models, i, n);
      if !IsUsable(models, j) {
        NoWrites(models, id);
        LastStays(p, ws, k);
      } else {
        WritesOf(models, id);
        if WantsAlias(models, id) && id + SUFFIX == models.ids[i] {
          LastIsNew(p, ws, 1);
          k := |p| + 1;
        } else {
          LastStays(p, ws, k);
        }
      }
    }
  }

  lemma NoWrites(models: Models, id: string)
    requires models.build(id).None?
    ensures WritesFor(models, id) == [] && !WantsAlias(models, id)
  {
  }

  lemma TakesNext(models: Models, i: nat, n: nat)
    requires i < n - 1 && n <= |models.ids|
    ensures AliasTakes(models, i, n) <==>
      (AliasTakes(models, i, n - 1) ||
       (WantsAlias(models, models.ids[n - 1]) && models.ids[n - 1] + SUFFIX == models.ids[i]))
    ensures TokenTakes(models, i, n) <==>
      (TokenTakes(models, i, n - 1) || (IsUsable(models, n - 1) && models.ids[n - 1] == models.ids[i] + SUFFIX))
  {
    hide WantsAlias, SUFFIX, IsUsable;
  }

  /** The last write to a model's alias is its own, unless a later model's token takes the name. */
  lemma {:induction false} AliasIsLast(models: Models, n: nat, i: nat) returns (k: nat)
    requires i < n <= |models.ids| && WantsAlias(models, models.ids[i]) && DistinctIds(models)
    ensures var plan := Plan(models, n);
      IsLastWrite(plan, k) && plan[k].name == PREFIX + models.ids[i] + SUFFIX &&
      (!plan[k].alias <==> TokenTakes(models, i, n)) && (plan[k].alias ==> plan[k].id == models.ids[i])
  {
    UsableIfWanted(models, i);
    hide WantsAlias, WritesFor, SUFFIX, PREFIX;
    var j, p := n - 1, Plan(models, n - 1);
    var id, ws := models.ids[j], WritesFor(models, models.ids[j]);
    NamesDiffer(models.ids[i], id);
    if i == j {
      WritesOf(models, id);
      LastIsNew(p, ws, 1);
      k := |p| + 1;
    } else {
      k := AliasIsLast(models, j, i);
      TakesNext(models, i, n);
      if !IsUsable(models, j) {
        NoWrites(models, id);
        LastStays(p, ws, k);
      } else {
        WritesOf(models, id);
        if id == models.ids[i] + SUFFIX {
          LastIsNew(p, ws, 0);
          k := |p|;
        } else {
          LastStays(p, ws, k);
        }
      }
    }
  }

  lemma UsableIfWanted(models: Models, i: nat)
    requires i < |models.ids| && WantsAlias(models, models.ids[i])
    ensures IsUsable(models, i)
  {
  }

  /** A written token resolves to the model of its last write. */
  lemma ResolvesTo(models: Models, root: Root, k: nat)
    requires IdsReadBack(models) && IsLastWrite(Writes(models), k)
    ensures var w, done := Writes(models)[k], Sync(models, root);
      w.name in done && Resolve(done[w.name], w.name) == Resolved(true, w.id, w.alias)
  {
    hide Plan, PutAll, TokenUpdate, IdsReadBack, Survives, FromModel, IsStale, IsBlank, TrimSpaces, FoldCase;
    var plan, w := Writes(models), Writes(models)[k];
    WriteIsPrefixed(models, k);
    ReadBackSurvives(models, w);
    WrittenSurvivesIff(models, root, k);
    LastWriteDecides(root, plan, k);
  }

  /**
   Every usable model has a token of its name afterwards. It is the model's own, if and only if no model processed later
   wants an alias of that very name; and a wanted alias is the model's own, if and only if no usable model processed
   later has that name.
   */
  lemma UsableModelsArePresent(models: Models, root: Root, i: nat)
    requires IdsReadBack(models) && DistinctIds(models) && i < |models.ids| && IsUsable(models, i)
    ensures var id, done, n := models.ids[i], Sync(models, root), |models.ids|;
      PREFIX + id in done &&
      (Resolve(done[PREFIX + id], PREFIX + id) == Resolved(true, id, false) <==> !AliasTakes(models, i, n))
    ensures WantsAlias(models, models.ids[i]) ==>
      var id, done, n := models.ids[i], Sync(models, root), |models.ids|;
      PREFIX + id + SUFFIX in done &&
      (Resolve(done[PREFIX + id + SUFFIX], PREFIX + id + SUFFIX) == Resolved(true, id, true) <==>
        !TokenTakes(models, i, n))
  {
    hide Sync, WantsAlias, Plan, Resolve, IdsReadBack, DistinctIds, AliasTakes, TokenTakes, PREFIX, SUFFIX;
    var k := MainIsLast(models, |models.ids|, i);
    ResolvesTo(models, root, k);
    if WantsAlias(models, models.ids[i]) {
      var m := AliasIsLast(models, |models.ids|, i);
      ResolvesTo(models, root, m);
    }
  }

  /** The alias of "foo" and the token of "foo-enus" have one name; in sorted order the alias is overwritten. */
  lemma AliasIsOverwritten(models: Models, root: Root)
    requires models.ids == ["foo", "foo-enus"] && IdsReadBack(models)
    requires WantsAlias(models, "foo") && models.build("foo-enus").Some?
    ensures var name, done := PREFIX + "foo" + SUFFIX, Sync(models, root);
      name in done && Resolve(done[name], name) != Resolved(true, "foo", true)
  {
    hide Sync, WantsAlias, Resolve, IdsReadBack, PREFIX;
    assert models.ids[1] == "foo-enus" == models.ids[0] + SUFFIX;
    assert DistinctIds(models) && IsUsable(models, 1);
    UsableIfWanted(models, 0);
    UsableModelsArePresent(models, root, 0);
    assert TokenTakes(models, 0, 2);
  }

  // ----- a second run

  /** Whether a token is stale depends on its model name and alias flag only. */
  lemma StaleIsSame(models: Models, t: Token, t': Token, name: string)
    requires MODEL_NAME in t && MODEL_NAME in t' && t[MODEL_NAME] == t'[MODEL_NAME]
    requires ALIAS_FLAG in t && ALIAS_FLAG in t' && t[ALIAS_FLAG] == t'[ALIAS_FLAG]
    ensures IsStale(models, t, name) == IsStale(models, t', name)
  {
    hide IsBlank, TrimSpaces, FoldCase, WantsAlias;
  }

  lemma SameTokens(a: Root, b: Root)
    requires forall n :: (n in a <==> n in b) && TokenAt(a, n) == TokenAt(b, n)
    ensures a == b
  {
    forall n | n in a
      ensures n in b && a[n] == b[n]
    {
      assert TokenAt(a, n) == TokenAt(b, n);
    }
    assert a.Keys == b.Keys;
  }

  /** A token written by both runs is judged alike by both sweeps, and the second run writes what is there already. */
  lemma WrittenTwice(models: Models, root: Root, name: string)
    requires IsWritten(Writes(models), name)
    ensures var done := Sync(models, root); var twice := Sync(models, done);
      (name in twice <==> name in done) && TokenAt(twice, name) == TokenAt(done, name)
  {
    hide Plan, PutAll, TokenUpdate, ApplyUpdate, IsStale;
    var plan, done := Writes(models), Sync(models, root);
    var k := LastWriteOf(plan, name);
    LastWriteDecides(root, plan, k);
    LastWriteDecides(done, plan, k);
    PutAllAt(root, plan, name);
    PutAllAt(done, plan, name);
    StaleIsSame(models, TokenAt(PutAll(root, plan), name), TokenAt(PutAll(done, plan), name), name);
    ApplyTwice(TokenAt(root, name), Combined(plan, name));
  }

  lemma NotWrittenTwice(models: Models, root: Root, name: string)
    requires !IsWritten(Writes(models), name)
    ensures var done := Sync(models, root); var twice := Sync(models, done);
      (name in twice <==> name in done) && TokenAt(twice, name) == TokenAt(done, name)
  {
    hide Plan, PutAll, TokenUpdate, ApplyUpdate, IsStale;
    PutAllAt(Sync(models, root), Writes(models), name);
  }

  /** A second run leaves the same tree, whatever the ids are. */
  lemma SecondRunKeepsTree(models: Models, root: Root)
    ensures Sync(models, Sync(models, root)) == Sync(models, root)
  {
    hide Sync;
    var done := Sync(models, root);
    var twice := Sync(models, done);
    forall n
      ensures (n in twice <==> n in done) && TokenAt(twice, n) == TokenAt(done, n)
    {
      if IsWritten(Writes(models), n) {
        WrittenTwice(models, root, n);
      } else {
        NotWrittenTwice(models, root, n);
      }
    }
    SameTokens(twice, done);
  }

  /** Nothing is added exactly when every name written is there already. */
  lemma {:induction false} AddsNothingIff(root: Root, plan: seq<Write>)
    ensures Added(root, plan) == 0 <==> forall k :: 0 <= k < |plan| ==> plan[k].name in root
  {
    hide TokenUpdate, PutAll, Combined, ApplyUpdate;
    if plan != [] {
      var rest := Front(plan);
      AddsNothingIff(root, rest);
      PutAllAt(root, rest, Last(plan).name);
      assert plan == rest + [Last(plan)];
    }
  }

  /** Every token written is found to belong to a valid model. */
  predicate AllSurvive(models: Models) {
    forall k :: 0 <= k < |Writes(models)| && IsLastWrite(Writes(models), k) ==>
      HasPrefix(Writes(models)[k].name) && Survives(models, Writes(models)[k])
  }

  /**
   A second run leaves the same tree and removes as many tokens as it adds; it adds none if and only if every token
   written is found to belong to a valid model.
   */
  lemma SecondRunIsIdle(models: Models, root: Root)
    ensures var done, plan := Sync(models, root), Writes(models);
      Sync(models, done) == done && |PutAll(done, plan)| == |Sync(models, done)| + Added(done, plan) &&
      (Added(done, plan) == 0 <==> AllSurvive(models))
  {
    hide Sync, Plan, PutAll, Survives;
    var done, plan := Sync(models, root), Writes(models);
    SecondRunKeepsTree(models, root);
    PutAllCount(done, plan);
    AddsNothingIff(done, plan);
    forall k | 0 <= k < |plan| && IsLastWrite(plan, k)
      ensures HasPrefix(plan[k].name) && (plan[k].name in done <==> Survives(models, plan[k]))
    {
      WrittenSurvivesIff(models, root, k);
    }
    if AllSurvive(models) {
      forall k | 0 <= k < |plan|
        ensures plan[k].name in done
      {
        assert IsWritten(plan, plan[k].name);
        var last := LastWriteOf(plan, plan[k].name);
      }
    }
  }

  // ----- an instance

  lemma PlanForOne(models: Models, id: string, m: Meta)
    requires models.ids == [id] && models.build(id) == Some(m) && !models.requested(id)
    ensures Writes(models) == [Write(PREFIX + id, id, m, false)]
  {
    assert Plan(models, 0) == [];
    assert Plan(models, 1) == Plan(models, 0) + WritesFor(models, id);
  }

  lemma TrimLeadingBlank()
    ensures !IsBlank(" x") && TrimSpaces(" x") == "x" && FoldCase("x") != " x"
  {
    var s := " x";
    assert s[1..] == "x" && s[1] == 'x';
    assert TrimSpaces("x") == "x";
    assert |FoldCase("x")| == 1;
  }

  /** The condition is needed: an id with a leading blank is read back without it, and its fresh token is removed. */
  lemma LeadingBlankIsRemoved(models: Models, m: Meta)
    requires models.ids == [" x"] && models.build(" x") == Some(m) && !models.requested(" x") && m.modelName == " x"
    ensures PREFIX + " x" in PutAll(map[], Writes(models)) && PREFIX + " x" !in Sync(models, map[])
  {
    hide Sync, PutAll, Plan, FoldCase, TrimSpaces, IsBlank;
    PlanForOne(models, " x", m);
    TrimLeadingBlank();
    var plan := Writes(models);
    assert IsLastWrite(plan, 0) && plan[0].name == PREFIX + " x";
    PutAllAt(map[], plan, plan[0].name);
    WrittenSurvivesIff(models, map[], 0);
  }
}
