/** The app store (`src/components/apps/AppStore.tsx`): the search filter
    over the fetched catalogue, the creator ids and creator map built from
    it, and the guards of install and upload.  Each backend request is
    reduced to the write it asks for, and its outcome to a boolean
    parameter; `Date.now()` is the parameter `now`. */
module AppStore {
  import opened Seqs
  import opened Strings
  import opened WindowStore

  /** One published app as fetched. */
  datatype App = App(
    id: string,
    title: string,
    description: string,
    iconUrl: string,
    downloads: int,
    creatorId: string,
    createdAt: string,
    version: string,
    componentCode: string)

  datatype Creator = Creator(id: string, email: string)

  /** The search predicate: the lowercased title or description includes
      the lowercased term. */
  predicate Matches(term: string, app: App) {
    Contains(Lower(app.title), Lower(term)) || Contains(Lower(app.description), Lower(term))
  }

  /** `filteredApps`. */
  function FilteredApps(apps: seq<App>, term: string): (r: seq<App>)
    ensures forall a :: a in r ==> a in apps && Matches(term, a)
    ensures forall a :: a in apps && Matches(term, a) ==> a in r
  {
    Filter((a: App) => Matches(term, a), apps)
  }

  /** The filter keeps the catalogue's order: it only drops apps. */
  lemma FilteredIsSubsequence(apps: seq<App>, term: string)
    ensures IsSubsequence(FilteredApps(apps, term), apps)
  {
    FilterIsSubsequence((a: App) => Matches(term, a), apps);
  }

  /** The empty search shows the whole catalogue. */
  lemma EmptySearchKeepsAll(apps: seq<App>)
    ensures FilteredApps(apps, "") == apps
  {
    assert Lower("") == "";
    forall a | a in apps ensures Matches("", a) {
      ContainsEmpty(Lower(a.title));
    }
    FilterKeepsAll((a: App) => Matches("", a), apps);
  }

  /** Searching ignores the case of the term. */
  lemma SearchIgnoresCase(apps: seq<App>, term: string)
    ensures FilteredApps(apps, Lower(term)) == FilteredApps(apps, term)
  {
    LowerIdempotent(term);
    FilterAgree((a: App) => Matches(Lower(term), a), (a: App) => Matches(term, a), apps);
  }

  /** An app matches exactly when the lowercased term occurs at some index
      of its lowercased title or description. */
  lemma MatchesIffOccurs(term: string, app: App)
    ensures Matches(term, app) <==>
      (exists k: nat :: OccursAt(Lower(app.title), Lower(term), k)) ||
      (exists k: nat :: OccursAt(Lower(app.description), Lower(term), k))
  {
    ContainsIffOccurs(Lower(app.title), Lower(term));
    ContainsIffOccurs(Lower(app.description), Lower(term));
  }

  /** `data.map(app => app.creator_id)`. */
  function CreatorIdsOf(apps: seq<App>): (r: seq<string>)
    ensures |r| == |apps|
    ensures forall i :: 0 <= i < |apps| ==> r[i] == apps[i].creatorId
  {
    seq(|apps|, i requires 0 <= i < |apps| => apps[i].creatorId)
  }

  /** `[...new Set(data.map(app => app.creator_id))]`: every creator id of
      the catalogue once, in order of first appearance. */
  function CreatorIds(apps: seq<App>): (r: seq<string>)
    ensures Distinct(r)
    ensures forall i :: 0 <= i < |apps| ==> apps[i].creatorId in r
    ensures forall c :: c in r ==> exists i :: 0 <= i < |apps| && apps[i].creatorId == c
  {
    var ids := CreatorIdsOf(apps);
    assert forall i :: 0 <= i < |apps| ==> ids[i] in ids;
    Dedup(ids)
  }

  /** No later profile shares the id of the one at `i`. */
  predicate LastWithId(profiles: seq<Creator>, i: nat)
    requires i < |profiles|
  {
    forall j :: i < j < |profiles| ==> profiles[j].id != profiles[i].id
  }

  /** The creator map: `profiles.reduce` spreading each profile in under
      its id, so a later profile replaces an earlier one with the same id. */
  function CreatorMap(profiles: seq<Creator>): (r: map<string, Creator>)
    ensures forall p :: p in profiles ==> p.id in r
    decreases |profiles|
  {
    if |profiles| == 0 then map[]
    else
      var init := profiles[..|profiles| - 1];
      var last := profiles[|profiles| - 1];
      assert profiles == init + [last];
      CreatorMap(init)[last.id := last]
  }

  /** Every entry of the map is a fetched profile stored under its own id. */
  lemma {:induction false} CreatorMapEntries(profiles: seq<Creator>)
    ensures forall k :: k in CreatorMap(profiles) ==>
      CreatorMap(profiles)[k] in profiles && CreatorMap(profiles)[k].id == k
    decreases |profiles|
  {
    if |profiles| > 0 {
      var init := profiles[..|profiles| - 1];
      CreatorMapEntries(init);
      assert profiles == init + [profiles[|profiles| - 1]];
      forall k | k in CreatorMap(profiles)
        ensures CreatorMap(profiles)[k] in profiles && CreatorMap(profiles)[k].id == k
      {
        if k != profiles[|profiles| - 1].id {
          assert CreatorMap(profiles)[k] == CreatorMap(init)[k];
          assert CreatorMap(init)[k] in init;
        }
      }
    }
  }

  /** Each id maps to the last profile carrying it. */
  lemma {:induction false} CreatorMapLastWins(profiles: seq<Creator>, i: nat)
    requires i < |profiles| && LastWithId(profiles, i)
    ensures CreatorMap(profiles)[profiles[i].id] == profiles[i]
    decreases |profiles|
  {
    var n := |profiles| - 1;
    if i < n {
      var init := profiles[..n];
      assert profiles[n].id != profiles[i].id;
      assert init[i] == profiles[i];
      assert LastWithId(init, i);
      CreatorMapLastWins(init, i);
    }
  }

  /** Profiles fetched later win, whatever came before them. */
  lemma {:induction false} CreatorMapLaterWins(earlier: seq<Creator>, later: seq<Creator>, k: string)
    requires k in CreatorMap(later)
    ensures k in CreatorMap(earlier + later)
    ensures CreatorMap(earlier + later)[k] == CreatorMap(later)[k]
    decreases |later|
  {
    var all := earlier + later;
    var n := |later| - 1;
    var last := later[n];
    assert all[..|all| - 1] == earlier + later[..n];
    assert all[|all| - 1] == last;
    assert CreatorMap(all) == CreatorMap(earlier + later[..n])[last.id := last];
    assert CreatorMap(later) == CreatorMap(later[..n])[last.id := last];
    if k != last.id {
      CreatorMapLaterWins(earlier, later[..n], k);
    }
  }

  /** `creators[app.creator_id]?.email`, shown under each app. */
  function CreatorEmail(creators: map<string, Creator>, app: App): (r: Option<string>)
    ensures r.Some? <==> app.creatorId in creators
    ensures r.Some? ==> r.value == creators[app.creatorId].email
  {
    if app.creatorId in creators then Some(creators[app.creatorId].email) else None
  }

  /** A write the app store asks the backend for. */
  datatype Write =
    | UpdateDownloads(appId: string, downloads: int)
    | InsertInstalled(userId: string, appId: string, iconId: string, title: string, iconUrl: string)
    | InsertApp(creatorId: string, title: string, description: string, iconUrl: string,
                componentCode: string, published: bool)

  /** What an install click leaves behind: the store, the writes in order,
      and the alert shown. */
  datatype InstallOutcome = InstallOutcome(store: Store, writes: seq<Write>, alert: Option<string>)

  /** `handleInstall`.  A failed download update is only logged; a failed
      insert ends the handler before the alert.  `insertOk` is the insert's
      outcome and `now` the desktop icon's time stamp. */
  function HandleInstall(s: Store, app: App, now: nat, insertOk: bool): (r: InstallOutcome)
    ensures s.user.None? ==> r.store == s.(showAuth := true) && r.writes == [] && r.alert.None?
    ensures s.user.Some? ==> r.store == s && |r.writes| == 2
    ensures s.user.Some? ==> r.writes[0] == UpdateDownloads(app.id, app.downloads + 1)
    ensures s.user.Some? ==>
      r.writes[1] == InsertInstalled(s.user.value.id, app.id, Lower(app.title) + "-" + NatToString(now),
                                     app.title, app.iconUrl)
    ensures r.alert.Some? <==> s.user.Some? && insertOk
    ensures r.alert.Some? ==> r.alert.value == app.title + " has been installed to your desktop!"
  {
    match s.user
    case None => InstallOutcome(SetShowAuth(s, true), [], None)
    case Some(u) =>
      var icon := InsertInstalled(u.id, app.id, Lower(app.title) + "-" + NatToString(now), app.title, app.iconUrl);
      var alert := if insertOk then Some(app.title + " has been installed to your desktop!") else None;
      InstallOutcome(s, [UpdateDownloads(app.id, app.downloads + 1), icon], alert)
  }

  /** The desktop icon's id is the lowercased title, a dash, and the time;
      installing the same app in two different milliseconds gives two
      different icon ids. */
  lemma InstalledIconId(s: Store, app: App, now: nat, now': nat, insertOk: bool)
    requires s.user.Some?
    ensures var id := HandleInstall(s, app, now, insertOk).writes[1].iconId;
      |id| > |app.title| && id[..|app.title| + 1] == Lower(app.title) + "-" &&
      id[|app.title| + 1..] == NatToString(now)
    ensures (HandleInstall(s, app, now, insertOk).writes[1].iconId ==
             HandleInstall(s, app, now', insertOk).writes[1].iconId) <==> now == now'
  {
    var t := Lower(app.title) + "-";
    var id := HandleInstall(s, app, now, insertOk).writes[1].iconId;
    assert id == t + NatToString(now);
    assert id[..|t|] == t;
    if id == HandleInstall(s, app, now', insertOk).writes[1].iconId {
      assert id[|t|..] == NatToString(now');
      NatToStringInjective(now, now');
    }
  }

  /** `handleUpload`: signed out, only the sign-in prompt is raised;
      signed in, the upload form opens. */
  function HandleUpload(s: Store, modalOpen: bool): (r: (Store, bool))
    ensures s.user.None? ==> r.0 == s.(showAuth := true) && r.1 == modalOpen
    ensures s.user.Some? ==> r.0 == s && r.1
  {
    if s.user.None? then (SetShowAuth(s, true), modalOpen) else (s, true)
  }

  /** The upload form's fields. */
  datatype UploadForm = UploadForm(title: string, description: string, iconUrl: string, code: string)

  /** What submitting the form leaves behind: the insert asked for, and
      whether the catalogue is refetched and the form closed. */
  datatype SubmitOutcome = SubmitOutcome(write: Option<Write>, closed: bool)

  /** `handleSubmit`: signed out does nothing; signed in inserts a
      published app owned by the user, and refetches and closes only when
      the insert succeeded. */
  function SubmitUpload(user: Option<User>, form: UploadForm, insertOk: bool): (r: SubmitOutcome)
    ensures user.None? ==> r.write.None? && !r.closed
    ensures user.Some? ==>
      r.write == Some(InsertApp(user.value.id, form.title, form.description, form.iconUrl, form.code, true))
    ensures r.closed <==> user.Some? && insertOk
  {
    match user
    case None => SubmitOutcome(None, false)
    case Some(u) =>
      SubmitOutcome(Some(InsertApp(u.id, form.title, form.description, form.iconUrl, form.code, true)), insertOk)
  }

  /** Once the catalogue is refetched, an uploaded app is found by
      searching for its title or for its description. */
  lemma UploadedAppSearchable(user: Option<User>, form: UploadForm, insertOk: bool, app: App)
    requires user.Some?
    requires app.title == SubmitUpload(user, form, insertOk).write.value.title
    requires app.description == SubmitUpload(user, form, insertOk).write.value.description
    ensures Matches(form.title, app) && Matches(form.description, app)
  {
    assert Lower(form.title) <= Lower(app.title);
    assert Lower(form.description) <= Lower(app.description);
  }

  /** Signed-out install and upload clicks have the same effect on the
      store, and neither asks the backend for anything. */
  lemma SignedOutGuardsAgree(s: Store, app: App, now: nat, insertOk: bool, modalOpen: bool)
    requires s.user.None?
    ensures HandleInstall(s, app, now, insertOk).store == HandleUpload(s, modalOpen).0
    ensures HandleInstall(s, app, now, insertOk).writes == []
  {
  }
}
